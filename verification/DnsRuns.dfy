/** Whole runs of the DNS service: connections come and go, ask for routes and are
    pushed changes by one task per event loop. */
module DnsRuns {
  import opened Words
  import opened DnsSpec

  /** An open connection: the loop that owns it and the modules it asked for. */
  datatype Conn = Conn(loop: nat, subs: set<Mod>)

  /** `tasks[l]` push tasks wait at loop l; `view` is what each connection was last told
      about each module. */
  datatype Dns = Dns(table: Table, book: Book, push: Push, conns: map<Fd, Conn>,
                     tasks: seq<nat>, view: map<(Fd, Mod), set<Uint64>>)

  datatype Event =
    | Connect(fd: Fd, loop: nat)
    | Disconnect(fd: Fd)
    | AskRoute(fd: Fd, modid: Int32, cmdid: Int32)
    | Reload(table: Table)
    | Publication(table: Table, changes: set<Mod>)
    | RunTask(loop: nat)

  function Start(loops: nat, table: Table): (s: Dns) {
    Dns(table, map[], map[], map[], seq(loops, _ => 0), map[])
  }

  /** The descriptors a loop listens to. */
  function Online(s: Dns, loop: nat): (fds: set<Fd>) {
    set fd | fd in s.conns && s.conns[fd].loop == loop
  }

  /** The pairs a push task of a loop sends. */
  predicate Sends(s: Dns, e: Event, fd: Fd, mod: Mod) {
    e.RunTask? && e.loop < |s.tasks| && s.tasks[e.loop] > 0 && fd in Online(s, e.loop) && mod in Pending(s.push, fd)
  }

  function Told(s: Dns, e: Event): (v: map<(Fd, Mod), set<Uint64>>) {
    map fd, mod | fd in s.push && mod in s.push[fd] && Sends(s, e, fd, mod) ::
      (fd, Repack(mod)) := HostsAt(s.table, Repack(mod))
  }

  function Step(s: Dns, e: Event): (s': Dns) {
    match e
    case Connect(fd, loop) =>
      if fd in s.conns || loop >= |s.tasks| then s
      else s.(conns := s.conns[fd := Conn(loop, {})])
    case Disconnect(fd) =>
      if fd !in s.conns then s
      else s.(conns := s.conns - {fd}, book := UnsubscribeAll(s.book, s.conns[fd].subs, fd))
    case AskRoute(fd, modid, cmdid) =>
      if fd !in s.conns then s
      else
        var mod := Pack(modid, cmdid);
        var c := s.conns[fd];
        var told := s.(view := s.view[(fd, mod) := HostsAt(s.table, mod)]);
        if mod in c.subs then told
        else told.(conns := s.conns[fd := c.(subs := c.subs + {mod})], book := Subscribe(s.book, mod, fd))
    case Reload(table) => s.(table := table)
    case Publication(table, changes) =>
      s.(table := table, push := Publish(s.book, s.push, changes),
         tasks := seq(|s.tasks|, i requires 0 <= i < |s.tasks| => s.tasks[i] + 1))
    case RunTask(loop) =>
      if loop >= |s.tasks| || s.tasks[loop] == 0 then s
      else s.(push := s.push - Online(s, loop), tasks := s.tasks[loop := s.tasks[loop] - 1],
              view := s.view + Told(s, e))
  }

  function Run(s: Dns, es: seq<Event>): (s': Dns) {
    if es == [] then s else Step(Run(s, es[..|es| - 1]), es[|es| - 1])
  }

  // ---------------------------------------------------------------- the two indexes

  /** A descriptor is booked for a module exactly when its open connection asked for it,
      and no module is booked for nobody. */
  ghost predicate Mirrored(s: Dns) {
    && (forall fd, mod :: fd in Readers(s.book, mod) <==> fd in s.conns && mod in s.conns[fd].subs)
    && (forall mod | mod in s.book :: s.book[mod] != {})
  }

  lemma StepMirrored(s: Dns, e: Event)
    requires Mirrored(s)
    ensures Mirrored(Step(s, e))
  {
    hide Pack, Publish, Told, Online;
    match e
    case Connect(fd, loop) =>
    case Disconnect(fd) =>
      if fd in s.conns {
        forall mod
          ensures Readers(Step(s, e).book, mod) == Readers(s.book, mod) - (if mod in s.conns[fd].subs then {fd} else {})
        {
          UnsubscribeAllMeans(s.book, s.conns[fd].subs, fd, mod);
        }
      }
    case AskRoute(fd, modid, cmdid) => AskMirrored(s, fd, modid, cmdid);
    case Reload(_) =>
    case Publication(_, _) =>
    case RunTask(_) =>
  }

  lemma AskMirrored(s: Dns, fd: Fd, modid: Int32, cmdid: Int32)
    requires Mirrored(s)
    ensures Mirrored(Step(s, AskRoute(fd, modid, cmdid)))
  {
    hide Pack;
    var s' := Step(s, AskRoute(fd, modid, cmdid));
    var mod := Pack(modid, cmdid);
    if fd in s.conns && mod !in s.conns[fd].subs {
      forall f, m
        ensures f in Readers(s'.book, m) <==> f in Readers(s.book, m) || (f == fd && m == mod)
        ensures f in s'.conns && m in s'.conns[f].subs <==> (f in s.conns && m in s.conns[f].subs) || (f == fd && m == mod)
      {}
    }
  }

  lemma {:induction false} RunMirrored(loops: nat, t: Table, es: seq<Event>)
    ensures Mirrored(Run(Start(loops, t), es))
  {
    hide Step, Mirrored;
    if es == [] {
      StartMirrored(loops, t);
    } else {
      RunMirrored(loops, t, es[..|es| - 1]);
      StepMirrored(Run(Start(loops, t), es[..|es| - 1]), es[|es| - 1]);
    }
  }

  lemma StartMirrored(loops: nat, t: Table)
    ensures Mirrored(Start(loops, t))
  {}

  // ---------------------------------------------------------------- the history of a connection

  /** The j-th event opened the connection that now has the descriptor: it names an existing
      loop, the descriptor was free, and it was not closed since. */
  ghost predicate OpenSince(loops: nat, t: Table, es: seq<Event>, fd: Fd, j: nat) {
    && j < |es| && es[j].Connect? && es[j].fd == fd && es[j].loop < loops
    && fd !in Run(Start(loops, t), es[..j]).conns
    && forall d | j < d < |es| :: es[d] != Disconnect(fd)
  }

  /** The modules asked for on the descriptor after the j-th event. */
  ghost function AskedSince(es: seq<Event>, fd: Fd, j: nat): (mods: set<Mod>) {
    set i | j < i < |es| && es[i].AskRoute? && es[i].fd == fd :: Pack(es[i].modid, es[i].cmdid)
  }

  /** The open connection was opened by the j-th event and carries what was asked since. */
  ghost predicate HistoryOf(loops: nat, t: Table, es: seq<Event>, fd: Fd, c: Conn, j: nat) {
    OpenSince(loops, t, es, fd, j) && c == Conn(es[j].loop, AskedSince(es, fd, j))
  }

  /** Over every run: a connection is open exactly when some event opened it on a free
      descriptor and none closed it since; it belongs to the loop that event named; and it
      carries exactly the modules asked for on it since. */
  lemma {:induction false} ConnHistory(loops: nat, t: Table, es: seq<Event>, fd: Fd)
    ensures var s := Run(Start(loops, t), es);
            && |s.tasks| == loops
            && (fd in s.conns <==> exists j: nat :: OpenSince(loops, t, es, fd, j))
            && (fd in s.conns ==> exists j: nat :: HistoryOf(loops, t, es, fd, s.conns[fd], j))
  {
    hide Step, OpenSince, AskedSince;
    if es == [] {
      NoneOpen(loops, t, fd);
    } else {
      var n := |es| - 1;
      var init, e := es[..n], es[n];
      ConnHistory(loops, t, init, fd);
      var s := Run(Start(loops, t), init);
      StepConn(s, e, fd);
      forall j: nat | j < n ensures OpenSince(loops, t, es, fd, j) <==> OpenSince(loops, t, init, fd, j) && e != Disconnect(fd) {
        OpenSnoc(loops, t, es, fd, j);
      }
      OpenNow(loops, t, es, fd);
      if j: nat :| fd in s.conns && HistoryOf(loops, t, init, fd, s.conns[fd], j) {
        OpenBound(loops, t, init, fd, j);
        AskedSnoc(es, fd, j);
        if fd in Step(s, e).conns { assert HistoryOf(loops, t, es, fd, Step(s, e).conns[fd], j); }
      }
      if fd !in s.conns && fd in Step(s, e).conns {
        assert HistoryOf(loops, t, es, fd, Step(s, e).conns[fd], n);
      }
    }
  }

  lemma NoneOpen(loops: nat, t: Table, fd: Fd)
    ensures forall j: nat :: !OpenSince(loops, t, [], fd, j)
  {}

  lemma OpenBound(loops: nat, t: Table, es: seq<Event>, fd: Fd, j: nat)
    requires OpenSince(loops, t, es, fd, j)
    ensures j < |es| && es[j].Connect?
  {}

  /** What one event does to one descriptor. */
  lemma StepConn(s: Dns, e: Event, fd: Fd)
    ensures var s' := Step(s, e);
            && |s'.tasks| == |s.tasks|
            && (fd in s'.conns <==> if fd in s.conns then e != Disconnect(fd)
                                    else e.Connect? && e.fd == fd && e.loop < |s.tasks|)
            && (fd in s.conns && fd in s'.conns ==>
                  s'.conns[fd] == Conn(s.conns[fd].loop, s.conns[fd].subs + AskedBy(e, fd)))
            && (fd !in s.conns && fd in s'.conns ==> s'.conns[fd] == Conn(e.loop, {}))
  {
    hide Pack, Publish, UnsubscribeAll, Subscribe, Told, Online;
  }

  function AskedBy(e: Event, fd: Fd): (mods: set<Mod>) {
    if e.AskRoute? && e.fd == fd then {Pack(e.modid, e.cmdid)} else {}
  }

  lemma AskedSnoc(es: seq<Event>, fd: Fd, j: nat)
    requires j < |es| - 1
    ensures AskedSince(es, fd, j) == AskedSince(es[..|es| - 1], fd, j) + AskedBy(es[|es| - 1], fd)
  {
    hide Pack;
    var init := es[..|es| - 1];
    assert forall i | 0 <= i < |init| :: init[i] == es[i];
  }

  lemma OpenSnoc(loops: nat, t: Table, es: seq<Event>, fd: Fd, j: nat)
    requires j < |es| - 1
    ensures OpenSince(loops, t, es, fd, j)
            <==> OpenSince(loops, t, es[..|es| - 1], fd, j) && es[|es| - 1] != Disconnect(fd)
  {
    hide Run;
    var init := es[..|es| - 1];
    assert init[..j] == es[..j] && forall i | 0 <= i < |init| :: init[i] == es[i];
  }

  lemma OpenNow(loops: nat, t: Table, es: seq<Event>, fd: Fd)
    requires es != []
    ensures var n := |es| - 1;
            && (OpenSince(loops, t, es, fd, n) <==>
                  es[n].Connect? && es[n].fd == fd && es[n].loop < loops && fd !in Run(Start(loops, t), es[..n]).conns)
            && (forall j: nat | j >= |es| :: !OpenSince(loops, t, es, fd, j))
            && AskedSince(es, fd, n) == {}
  {
    hide Run;
  }

  // ---------------------------------------------------------------- conservation of pushes

  /** A publication makes a pair pending that was not. */
  predicate Makes(s: Dns, e: Event, fd: Fd, mod: Mod) {
    e.Publication? && mod in Affected(s.book, e.changes, fd) && mod !in Pending(s.push, fd)
  }

  function Bit(b: bool): (n: nat) { if b then 1 else 0 }

  function MadeCount(s: Dns, es: seq<Event>, fd: Fd, mod: Mod): (n: nat) {
    if es == [] then 0
    else MadeCount(s, es[..|es| - 1], fd, mod) + Bit(Makes(Run(s, es[..|es| - 1]), es[|es| - 1], fd, mod))
  }

  function SentCount(s: Dns, es: seq<Event>, fd: Fd, mod: Mod): (n: nat) {
    if es == [] then 0
    else SentCount(s, es[..|es| - 1], fd, mod) + Bit(Sends(Run(s, es[..|es| - 1]), es[|es| - 1], fd, mod))
  }

  /** One event: a pair becomes pending only by a publication, and stops being pending
      only by being sent. */
  lemma StepConserves(s: Dns, e: Event, fd: Fd, mod: Mod)
    ensures Bit(mod in Pending(Step(s, e).push, fd)) + Bit(Sends(s, e, fd, mod))
         == Bit(mod in Pending(s.push, fd)) + Bit(Makes(s, e, fd, mod))
  {}

  /** Exactly once, over every run: the times a pair was made pending are the times it was
      sent, plus one while it waits. */
  lemma {:induction false} PushesConserved(loops: nat, t: Table, es: seq<Event>, fd: Fd, mod: Mod)
    ensures var s := Start(loops, t);
            MadeCount(s, es, fd, mod) == SentCount(s, es, fd, mod) + Bit(mod in Pending(Run(s, es).push, fd))
  {
    hide Step, Makes, Sends;
    if es == [] {
    } else {
      PushesConserved(loops, t, es[..|es| - 1], fd, mod);
      StepConserves(Run(Start(loops, t), es[..|es| - 1]), es[|es| - 1], fd, mod);
    }
  }

  function Publications(es: seq<Event>): (n: nat) {
    if es == [] then 0 else Publications(es[..|es| - 1]) + Bit(es[|es| - 1].Publication?)
  }

  predicate RunsAt(s: Dns, e: Event, loop: nat) {
    e == RunTask(loop) && loop < |s.tasks| && s.tasks[loop] > 0
  }

  /** How often a loop ran a push task. */
  function TaskRuns(s: Dns, es: seq<Event>, loop: nat): (n: nat) {
    if es == [] then 0
    else TaskRuns(s, es[..|es| - 1], loop) + Bit(RunsAt(Run(s, es[..|es| - 1]), es[|es| - 1], loop))
  }

  lemma StepTasks(s: Dns, e: Event, loop: nat)
    requires loop < |s.tasks|
    ensures |Step(s, e).tasks| == |s.tasks|
    ensures Step(s, e).tasks[loop] + Bit(RunsAt(s, e, loop)) == s.tasks[loop] + Bit(e.Publication?)
  {
    hide Pack, Publish, Told, UnsubscribeAll, Subscribe, Online;
  }

  /** Every publication puts one task at every loop, and each is run at most once. */
  lemma {:induction false} TasksConserved(loops: nat, t: Table, es: seq<Event>, loop: nat)
    requires loop < loops
    ensures var s := Run(Start(loops, t), es);
            |s.tasks| == loops && s.tasks[loop] + TaskRuns(Start(loops, t), es, loop) == Publications(es)
  {
    hide Step, RunsAt;
    if es == [] {
    } else {
      TasksConserved(loops, t, es[..|es| - 1], loop);
      StepTasks(Run(Start(loops, t), es[..|es| - 1]), es[|es| - 1], loop);
    }
  }

  // ---------------------------------------------------------------- the right receiver, and soon

  /** A pending push of an open connection is for a module that connection asked for, and
      its loop has a task waiting that will send it. */
  ghost predicate OnTarget(s: Dns) {
    forall fd | fd in s.conns && Pending(s.push, fd) != {} ::
      && Pending(s.push, fd) <= s.conns[fd].subs
      && s.conns[fd].loop < |s.tasks| && s.tasks[s.conns[fd].loop] > 0
  }

  /** A new connection gets a descriptor that still has pushes pending for its last owner. */
  predicate ReusesPending(s: Dns, e: Event) {
    e.Connect? && e.fd !in s.conns && e.loop < |s.tasks| && Pending(s.push, e.fd) != {}
  }

  predicate LoopsExist(s: Dns) { forall fd | fd in s.conns :: s.conns[fd].loop < |s.tasks| }

  /** Every event keeps pushes on target, except a connection on a descriptor with pushes
      pending, which never does. */
  lemma StepOnTargetIff(s: Dns, e: Event)
    requires Mirrored(s) && OnTarget(s) && LoopsExist(s)
    ensures OnTarget(Step(s, e)) <==> !ReusesPending(s, e)
    ensures LoopsExist(Step(s, e))
  {
    hide Step, OnTarget, Mirrored, LoopsExist;
    match e
    case Connect(_, _) => ConnectOnTargetIff(s, e);
    case Publication(_, _) => PublicationOnTarget(s, e);
    case RunTask(_) => TaskOnTarget(s, e);
    case AskRoute(_, _, _) => AskOnTarget(s, e);
    case Disconnect(_) => OthersOnTarget(s, e);
    case Reload(_) => OthersOnTarget(s, e);
  }

  lemma ConnectOnTargetIff(s: Dns, e: Event)
    requires OnTarget(s) && LoopsExist(s) && e.Connect?
    ensures OnTarget(Step(s, e)) <==> !ReusesPending(s, e)
    ensures LoopsExist(Step(s, e))
  {
    if ReusesPending(s, e) {
      assert e.fd in Step(s, e).conns && Step(s, e).conns[e.fd].subs == {};
    }
  }

  lemma PublicationOnTarget(s: Dns, e: Event)
    requires Mirrored(s) && OnTarget(s) && LoopsExist(s) && e.Publication?
    ensures OnTarget(Step(s, e)) && LoopsExist(Step(s, e))
  {
    hide Publish, Mirrored;
    var s' := Step(s, e);
    forall fd | fd in s'.conns && Pending(s'.push, fd) != {}
      ensures Pending(s'.push, fd) <= s'.conns[fd].subs
    {
      PublishMeans(s.book, s.push, e.changes, fd);
      AffectedAsked(s, e.changes, fd);
    }
  }

  lemma AskOnTarget(s: Dns, e: Event)
    requires OnTarget(s) && LoopsExist(s) && e.AskRoute?
    ensures OnTarget(Step(s, e)) && LoopsExist(Step(s, e))
  {
    hide Pack, Subscribe;
  }

  lemma OthersOnTarget(s: Dns, e: Event)
    requires OnTarget(s) && LoopsExist(s) && (e.Disconnect? || e.Reload?)
    ensures OnTarget(Step(s, e)) && LoopsExist(Step(s, e))
  {
    hide UnsubscribeAll;
  }

  lemma AffectedAsked(s: Dns, changes: set<Mod>, fd: Fd)
    requires Mirrored(s) && fd in s.conns
    ensures Affected(s.book, changes, fd) <= s.conns[fd].subs
  {}

  lemma TaskOnTarget(s: Dns, e: Event)
    requires OnTarget(s) && LoopsExist(s) && e.RunTask?
    ensures OnTarget(Step(s, e)) && LoopsExist(Step(s, e))
  {}

  ghost predicate NeverReused(s: Dns, es: seq<Event>) {
    forall i | 0 <= i < |es| :: !ReusesPending(Run(s, es[..i]), es[i])
  }

  /** Over every run in which no descriptor is reused while pushes for it are pending,
      pushes stay on target: what is sent goes to a connection that asked for that module
      (`RunDelivers`), and what is pending for an open connection is about to be sent. */
  lemma {:induction false} RunOnTarget(loops: nat, t: Table, es: seq<Event>)
    requires NeverReused(Start(loops, t), es)
    ensures var s := Run(Start(loops, t), es);
            OnTarget(s) && LoopsExist(s)
  {
    hide Step, Mirrored;
    if es == [] {
    } else {
      var init := es[..|es| - 1];
      assert forall i | 0 <= i < |init| :: init[..i] == es[..i] && init[i] == es[i];
      RunOnTarget(loops, t, init);
      RunMirrored(loops, t, init);
      StepOnTargetIff(Run(Start(loops, t), init), es[|es| - 1]);
    }
  }

  /** Everything the event sends goes to an open connection that asked for it. */
  ghost predicate SendsAsked(s: Dns, e: Event) {
    forall fd, mod | Sends(s, e, fd, mod) :: fd in s.conns && mod in s.conns[fd].subs
  }

  /** The connection is open and no push task waits at its loop. */
  predicate Served(s: Dns, fd: Fd) {
    fd in s.conns && s.conns[fd].loop < |s.tasks| && s.tasks[s.conns[fd].loop] == 0
  }

  lemma TargetSendsAsked(s: Dns, e: Event)
    requires OnTarget(s)
    ensures SendsAsked(s, e)
  {}

  lemma ServedNothingPending(s: Dns, fd: Fd)
    requires OnTarget(s) && Served(s, fd)
    ensures Pending(s.push, fd) == {}
  {}

  /** Delivery over whole runs in which no descriptor is reused while pushes for it are
      pending: whatever is sent at any step goes to an open connection that had asked for
      it, and once the tasks of an open connection's loop have run, every pair ever made
      pending for its descriptor has been sent exactly as often. */
  lemma RunDelivers(loops: nat, t: Table, es: seq<Event>)
    requires NeverReused(Start(loops, t), es)
    ensures forall i | 0 <= i < |es| :: SendsAsked(Run(Start(loops, t), es[..i]), es[i])
    ensures forall fd, mod | Served(Run(Start(loops, t), es), fd) ::
              MadeCount(Start(loops, t), es, fd, mod) == SentCount(Start(loops, t), es, fd, mod)
  {
    hide Run, OnTarget, SendsAsked, Served, MadeCount, SentCount, ReusesPending, Start;
    forall i | 0 <= i < |es| ensures SendsAsked(Run(Start(loops, t), es[..i]), es[i]) {
      assert forall j | 0 <= j < i :: es[..i][..j] == es[..j];
      RunOnTarget(loops, t, es[..i]);
      TargetSendsAsked(Run(Start(loops, t), es[..i]), es[i]);
    }
    RunOnTarget(loops, t, es);
    forall fd, mod | Served(Run(Start(loops, t), es), fd)
      ensures MadeCount(Start(loops, t), es, fd, mod) == SentCount(Start(loops, t), es, fd, mod)
    {
      ServedNothingPending(Run(Start(loops, t), es), fd);
      PushesConserved(loops, t, es, fd, mod);
    }
  }

  lemma RunSnoc(s: Dns, es: seq<Event>, e: Event)
    ensures Run(s, es + [e]) == Step(Run(s, es), e)
  {
    assert (es + [e])[..|es|] == es;
  }

  /** The run that misses: a connection asks for a module and goes while a push is pending,
      and the next connection gets its descriptor. The push task then sends it a module it
      never asked for. */
  lemma ReuseMisses(modid: Int32, cmdid: Int32, t: Table)
    ensures var mod := Pack(modid, cmdid);
            var es := [Connect(7, 0), AskRoute(7, modid, cmdid), Publication(t, {mod}), Disconnect(7)];
            var before := Run(Start(1, map[]), es);
            var s := Run(Start(1, map[]), es + [Connect(7, 0)]);
            && ReusesPending(before, Connect(7, 0))
            && Sends(s, RunTask(0), 7, mod) && !SendsAsked(s, RunTask(0)) && s.conns[7].subs == {}
  {
    hide Pack, Publish, Run, UnsubscribeAll, Told;
    var mod := Pack(modid, cmdid);
    var ask, change := AskRoute(7, modid, cmdid), Publication(t, {mod});
    RunFour(Start(1, map[]), Connect(7, 0), ask, change, Disconnect(7));
    RunSnoc(Start(1, map[]), [Connect(7, 0), ask, change, Disconnect(7)], Connect(7, 0));
    var s2 := Step(Step(Start(1, map[]), Connect(7, 0)), ask);
    assert 7 in Readers(s2.book, mod) && s2.push == map[] && s2.tasks == [0] && s2.conns.Keys == {7};
    var s3 := Step(s2, change);
    PublishMeans(s2.book, s2.push, {mod}, 7);
    assert Pending(s3.push, 7) == {mod} && s3.tasks == [1];
    var s5 := Step(Step(s3, Disconnect(7)), Connect(7, 0));
    assert s5.conns[7] == Conn(0, {}) && 7 in Online(s5, 0);
  }

  // ---------------------------------------------------------------- freshness

  /** What a connection believes about a module it asked for is current, or a push that
      will correct it is pending. */
  predicate Current(s: Dns, fd: Fd, mod: Mod) {
    mod in Pending(s.push, fd) || ((fd, mod) in s.view && s.view[(fd, mod)] == HostsAt(s.table, mod))
  }

  ghost predicate Fresh(s: Dns) {
    forall fd, mod | fd in s.conns && mod in s.conns[fd].subs :: Current(s, fd, mod)
  }

  /** Modules whose key survives being taken apart and packed again. */
  ghost predicate Addressable(s: Dns) {
    forall fd, mod | fd in s.conns && mod in s.conns[fd].subs :: Repack(mod) == mod
  }

  function ChangesOf(e: Event): (mods: set<Mod>) { if e.Publication? then e.changes else {} }

  /** A new table comes with the list of every module it changes for a connection that is
      not waiting for a push of it anyway. */
  ghost predicate Announced(s: Dns, e: Event) {
    e.Reload? || e.Publication? ==>
      forall fd, mod | fd in s.conns && mod in s.conns[fd].subs && mod !in Pending(s.push, fd) ::
        mod in ChangesOf(e) || HostsAt(e.table, mod) == HostsAt(s.table, mod)
  }

  /** Which events keep every connection current: all of them, except a new table that
      changes a module without announcing it, which never does. */
  lemma StepFreshIff(s: Dns, e: Event)
    requires Mirrored(s) && Fresh(s) && Addressable(s)
    ensures Fresh(Step(s, e)) <==> Announced(s, e)
  {
    hide Pack, Publish, UnsubscribeAll, Subscribe, Told, Repack;
    match e
    case Connect(fd, loop) => assert Fresh(Step(s, e));
    case Disconnect(fd) => assert Fresh(Step(s, e));
    case AskRoute(fd, modid, cmdid) => AskFresh(s, fd, modid, cmdid);
    case Reload(t) => TableFreshIff(s, e);
    case Publication(t, changes) => TableFreshIff(s, e);
    case RunTask(loop) => TaskFresh(s, loop);
  }

  lemma AskFresh(s: Dns, fd: Fd, modid: Int32, cmdid: Int32)
    requires Fresh(s)
    ensures Fresh(Step(s, AskRoute(fd, modid, cmdid)))
  {
    hide Pack, Subscribe;
    var s' := Step(s, AskRoute(fd, modid, cmdid));
    forall f, m | f in s'.conns && m in s'.conns[f].subs ensures Current(s', f, m) {
      if (f, m) != (fd, Pack(modid, cmdid)) { assert Current(s, f, m); }
    }
  }

  lemma TaskFresh(s: Dns, loop: nat)
    requires Fresh(s) && Addressable(s)
    ensures Fresh(Step(s, RunTask(loop)))
  {
    hide Repack;
    var e := RunTask(loop);
    var s' := Step(s, e);
    forall fd, mod | fd in s'.conns && mod in s'.conns[fd].subs ensures Current(s', fd, mod) {
      assert Current(s, fd, mod) && Repack(mod) == mod;
      ToldCurrent(s, e, fd, mod);
    }
  }

  lemma ToldCurrent(s: Dns, e: Event, fd: Fd, mod: Mod)
    requires Repack(mod) == mod
    ensures Sends(s, e, fd, mod) ==> (fd, mod) in Told(s, e)
    ensures (fd, mod) in Told(s, e) ==> Told(s, e)[(fd, mod)] == HostsAt(s.table, mod)
  {}

  lemma TableFreshIff(s: Dns, e: Event)
    requires Mirrored(s) && Fresh(s) && (e.Reload? || e.Publication?)
    ensures Fresh(Step(s, e)) <==> Announced(s, e)
  {
    hide Publish, Mirrored;
    var s' := Step(s, e);
    forall fd, mod | fd in s.conns && mod in s.conns[fd].subs
      ensures Current(s', fd, mod) <==>
              mod in Pending(s.push, fd) || mod in ChangesOf(e) || HostsAt(e.table, mod) == HostsAt(s.table, mod)
    {
      assert Current(s, fd, mod);
      if e.Publication? {
        PublishMeans(s.book, s.push, e.changes, fd);
        AskedAffected(s, e.changes, fd, mod);
      }
    }
  }

  lemma AskedAffected(s: Dns, changes: set<Mod>, fd: Fd, mod: Mod)
    requires Mirrored(s) && fd in s.conns && mod in s.conns[fd].subs
    ensures mod in Affected(s.book, changes, fd) <==> mod in changes
  {}

  lemma StepAddressable(s: Dns, e: Event)
    requires Addressable(s) && (e.AskRoute? ==> e.cmdid >= 0)
    ensures Addressable(Step(s, e))
  {
    hide Pack, Repack, Publish, UnsubscribeAll, Subscribe, Told;
    if e.AskRoute? { RepackIff(e.modid, e.cmdid); }
  }

  /** Over every run that asks for nonnegative command ids and announces its changes, every
      connection is current or has the correcting push pending; so once nothing is pending
      for it, it holds the present hosts of every module it asked for. */
  lemma {:induction false} RunFresh(loops: nat, t: Table, es: seq<Event>)
    requires forall i | 0 <= i < |es| :: es[i].AskRoute? ==> es[i].cmdid >= 0
    requires forall i | 0 <= i < |es| :: Announced(Run(Start(loops, t), es[..i]), es[i])
    ensures Fresh(Run(Start(loops, t), es)) && Addressable(Run(Start(loops, t), es))
  {
    hide Step, Mirrored, Fresh, Addressable, Announced;
    if es == [] {
      StartFresh(loops, t);
    } else {
      var init, e := es[..|es| - 1], es[|es| - 1];
      assert forall i | 0 <= i < |init| :: init[..i] == es[..i] && init[i] == es[i];
      RunFresh(loops, t, init);
      RunMirrored(loops, t, init);
      StepFreshIff(Run(Start(loops, t), init), e);
      StepAddressable(Run(Start(loops, t), init), e);
    }
  }

  lemma StartFresh(loops: nat, t: Table)
    ensures Fresh(Start(loops, t)) && Addressable(Start(loops, t))
  {}

  lemma RunFour(s: Dns, a: Event, b: Event, c: Event, d: Event)
    ensures Run(s, [a, b, c, d]) == Step(Step(Step(Step(s, a), b), c), d)
  {
    hide Step;
    assert [a, b, c, d][..3] == [a, b, c] && [a, b, c][..2] == [a, b] && [a, b][..1] == [a];
    assert Run(s, [a]) == Step(s, a) by { assert [a][..0] == []; }
    assert Run(s, [a, b]) == Step(Step(s, a), b);
    assert Run(s, [a, b, c]) == Step(Step(Step(s, a), b), c);
  }

  /** A negative command id defeats every push: a connection asks for such a module, a
      change is announced and its task runs, and the connection still holds the old hosts
      with nothing pending. */
  lemma NegativeIdStaysStale(modid: Int32, cmdid: Int32)
    requires cmdid < 0
    ensures var mod := Pack(modid, cmdid);
            var s := Run(Start(1, map[]), [Connect(7, 0), AskRoute(7, modid, cmdid),
                                           Publication(map[mod := {1}], {mod}), RunTask(0)]);
            7 in s.conns && mod in s.conns[7].subs && !Current(s, 7, mod)
  {
    hide Pack, Repack, Publish;
    var mod := Pack(modid, cmdid);
    var ask, change := AskRoute(7, modid, cmdid), Publication(map[mod := {1}], {mod});
    RunFour(Start(1, map[]), Connect(7, 0), ask, change, RunTask(0));
    RepackIff(modid, cmdid);
    var s2 := Step(Step(Start(1, map[]), Connect(7, 0)), ask);
    assert 7 in Readers(s2.book, mod) && 7 in s2.conns && mod in s2.conns[7].subs && s2.conns[7].loop == 0;
    assert s2.view[(7, mod)] == {} && s2.push == map[] && s2.tasks == [0];
    var s3 := Step(s2, change);
    PublishMeans(s2.book, s2.push, {mod}, 7);
    assert Pending(s3.push, 7) == {mod} && s3.tasks == [1];
    assert (7, mod) !in Told(s3, RunTask(0));
    assert 7 in Online(s3, 0);
  }

  /** A table that gives a module its first host without announcing it, by the reload every
      ten seconds or by a publication that does not name it: a connection that asked for the
      module keeps the old hosts with nothing pending, and running the task changes nothing. */
  lemma UnannouncedStaysStale(modid: Int32, cmdid: Int32, e: Event)
    requires var mod := Pack(modid, cmdid);
             e == Reload(map[mod := {1}]) || e == Publication(map[mod := {1}], {})
    ensures var mod := Pack(modid, cmdid);
            var s := Run(Start(1, map[]), [Connect(7, 0), AskRoute(7, modid, cmdid), e, RunTask(0)]);
            7 in s.conns && mod in s.conns[7].subs && Pending(s.push, 7) == {} && !Current(s, 7, mod)
  {
    hide Pack, Publish, Run;
    var mod, ask := Pack(modid, cmdid), AskRoute(7, modid, cmdid);
    RunFour(Start(1, map[]), Connect(7, 0), ask, e, RunTask(0));
    var s2 := Step(Step(Start(1, map[]), Connect(7, 0)), ask);
    assert 7 in s2.conns && mod in s2.conns[7].subs && s2.view[(7, mod)] == {} && s2.push == map[];
    var s3 := Step(s2, e);
    PublishMeans(s2.book, s2.push, {}, 7);
    assert Pending(s3.push, 7) == {};
    NothingTold(s3, RunTask(0), 7, mod);
  }

  lemma NothingTold(s: Dns, e: Event, fd: Fd, mod: Mod)
    requires Pending(s.push, fd) == {}
    ensures (fd, mod) !in Told(s, e)
  {}
}
