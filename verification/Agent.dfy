/** The three route tables of the agent, one per UDP port, over whole runs. A request is
    served by the table of the port it arrives at; an answer of the DNS service goes to the
    table that the ids in the answer select. */
module Agent {
  import opened Words
  import opened LbSpec
  import opened RouteLb

  type Port = i: int | 0 <= i < 3

  /** What a caller can send to a port. */
  type ApiRequest = r: Request | r.GetHost? || r.GetRoute? || r.HostCall? witness Request.GetHost(0)

  datatype Message =
    | Api(port: Port, modid: Int32, cmdid: Int32, r: ApiRequest)
    | Answer(modid: Int32, cmdid: Int32, rsp: seq<Addr>, now: int)
    | Reconnect(now: int)

  /** A balancer with the number of the message that created it. */
  datatype Slot = Slot(birth: nat, lb: Lb)

  /** A pull: the port whose table sent it, the module, and the balancer that asked. */
  datatype Pull = Pull(port: Port, modid: Int32, cmdid: Int32, birth: nat)

  /** `wild`: the process is undefined, because an answer selected no table and the agent
      indexed outside its array, or because a request faulted at a balancer. */
  datatype Agent = Agent(tables: seq<map<Key, Slot>>, pulls: seq<Pull>, clock: nat, wild: bool)

  const EMPTY_AGENT := Agent([map[], map[], map[]], [], 0, false)

  function Lbs(t: map<Key, Slot>): (lbs: map<Key, Lb>) {
    map mod | mod in t :: t[mod].lb
  }

  /** A request at a table: balancers that stay keep their births, a new one is born now. */
  function ServeSlots(cfg: Config, t: map<Key, Slot>, clock: nat, mod: Key, r: Request): (res: (map<Key, Slot>, bool)) {
    var s := ServeTable(cfg, Lbs(t), mod, r);
    (map k | k in s.0 :: Slot(if k in t then t[k].birth else clock, s.0[k]), s.1)
  }

  function Step(cfg: Config, a: Agent, m: Message): (a': Agent)
    requires |a.tables| == 3
    ensures |a'.tables| == 3 && a'.clock == a.clock + 1
  {
    match m
    case Api(port, modid, cmdid, r) =>
      var mod := Pack(modid, cmdid);
      var s := ServeSlots(cfg, a.tables[port], a.clock, mod, r);
      var sent := if s.1 then [Pull(port, modid, cmdid, s.0[mod].birth)] else [];
      Agent(a.tables[port := s.0], a.pulls + sent, a.clock + 1,
            a.wild || TableFaults(cfg, Lbs(a.tables[port]), mod, r))
    case Answer(modid, cmdid, rsp, now) =>
      var i := ShardIndex(modid, cmdid);
      if 0 <= i < 3 then
        var s := ServeSlots(cfg, a.tables[i], a.clock, Pack(modid, cmdid), Response(rsp, now));
        a.(tables := a.tables[i := s.0], clock := a.clock + 1,
           wild := a.wild || TableFaults(cfg, Lbs(a.tables[i]), Pack(modid, cmdid), Response(rsp, now)))
      else a.(wild := true, clock := a.clock + 1)
    case Reconnect(now) =>
      a.(tables := seq(3, i requires 0 <= i < 3 => ResetSlots(a.tables[i])), clock := a.clock + 1)
  }

  function ResetSlots(t: map<Key, Slot>): (t': map<Key, Slot>) {
    map mod | mod in t :: Slot(t[mod].birth, t[mod].lb.(status := New))
  }

  function Run(cfg: Config, ms: seq<Message>): (a: Agent)
    ensures |a.tables| == 3
  {
    if ms == [] then EMPTY_AGENT else Step(cfg, Run(cfg, ms[..|ms| - 1]), ms[|ms| - 1])
  }

  /** A request at a port is served by the table of that port, and nothing else changes; it
      adds a pull from there exactly when it pulls. */
  lemma ApiServes(cfg: Config, a: Agent, port: Port, modid: Int32, cmdid: Int32, r: ApiRequest)
    requires |a.tables| == 3
    ensures var a' := Step(cfg, a, Api(port, modid, cmdid, r));
            var s := ServeTable(cfg, Lbs(a.tables[port]), Pack(modid, cmdid), r);
            && Lbs(a'.tables[port]) == s.0
            && (forall i | 0 <= i < 3 && i != port :: a'.tables[i] == a.tables[i])
            && (if s.1 then |a'.pulls| == |a.pulls| + 1 && a'.pulls[..|a.pulls|] == a.pulls
                            && From(a'.pulls[|a.pulls|], port, Pack(modid, cmdid))
                else a'.pulls == a.pulls)
  {
    hide ServeTable, Pack;
    var mod := Pack(modid, cmdid);
    assert Lbs(ServeSlots(cfg, a.tables[port], a.clock, mod, r).0) == ServeTable(cfg, Lbs(a.tables[port]), mod, r).0;
    TableServes(cfg, Lbs(a.tables[port]), mod, r);
  }

  /** A report reaches the host it names, at the port it was sent to, and no other record. */
  lemma ReportReachesHost(cfg: Config, a: Agent, port: Port, modid: Int32, cmdid: Int32, k: Key, ok: bool, now: int)
    requires |a.tables| == 3 && Pack(modid, cmdid) in a.tables[port]
    requires k in a.tables[port][Pack(modid, cmdid)].lb.hosts
    ensures var mod := Pack(modid, cmdid);
            var t, t' := a.tables[port], Step(cfg, a, Api(port, modid, cmdid, HostCall(k, ok, now))).tables[port];
            && t'.Keys == t.Keys && (forall other | other in t && other != mod :: t'[other] == t[other])
            && t'[mod].lb.hosts == t[mod].lb.hosts[k := ReportHost(cfg, t[mod].lb.hosts[k], ok, now)]
  {
    hide ReportHost, Pack, Remove;
  }

  /** After a reconnection every balancer may pull again; nothing else changes. */
  lemma ReconnectResets(cfg: Config, a: Agent, now: int)
    requires |a.tables| == 3
    ensures var a' := Step(cfg, a, Reconnect(now));
            && a'.pulls == a.pulls && a'.wild == a.wild
            && (forall i | 0 <= i < 3 :: a'.tables[i].Keys == a.tables[i].Keys)
            && (forall i, mod | 0 <= i < 3 && mod in a.tables[i] ::
                  var s, s' := a.tables[i][mod], a'.tables[i][mod];
                  && s'.birth == s.birth && s'.lb.status == New
                  && Alike(s'.lb, s.lb) && s'.lb.lastUpdate == s.lb.lastUpdate)
  {}

  // ---------------------------------------------------------------- pulls and the balancers that sent them

  predicate From(p: Pull, i: int, mod: Key) { p.port == i && Pack(p.modid, p.cmdid) == mod }

  /** Every balancer has pulled. */
  ghost predicate AllBooked(a: Agent) {
    forall i, mod | 0 <= i < |a.tables| && mod in a.tables[i] ::
      a.tables[i][mod].birth < a.clock && Booked(a.pulls, i, mod, a.tables[i][mod].birth)
  }

  /** A birth names one balancer. */
  ghost predicate BirthsUnique(a: Agent) {
    && (forall p | p in a.pulls :: p.birth < a.clock)
    && (forall p, q | p in a.pulls && q in a.pulls && p.birth == q.birth :: p == q)
  }

  /** What stands where a pull was sent from is the balancer that sent it or a later one. */
  ghost predicate NoneOlder(a: Agent) {
    forall p, i, mod | p in a.pulls && 0 <= i < |a.tables| && mod in a.tables[i] && From(p, i, mod) ::
      a.tables[i][mod].birth >= p.birth
  }

  ghost predicate Ledger(a: Agent) {
    |a.tables| == 3 && AllBooked(a) && BirthsUnique(a) && NoneOlder(a)
  }

  ghost predicate Booked(pulls: seq<Pull>, i: int, mod: Key, birth: nat) {
    exists p :: p in pulls && From(p, i, mod) && p.birth == birth
  }

  /** A table keeps its balancers, loses some or gains one that pulls at once. */
  lemma SlotsKeep(cfg: Config, t: map<Key, Slot>, clock: nat, mod: Key, r: Request)
    ensures var s := ServeSlots(cfg, t, clock, mod, r);
            && (forall k | k in s.0 && k != mod :: k in t && s.0[k] == t[k])
            && (forall k | k in t && k != mod :: k in s.0)
            && (mod in s.0 && mod in t ==> s.0[mod].birth == t[mod].birth)
            && (mod in s.0 && mod !in t ==> s.1 && s.0[mod].birth == clock)
            && (s.1 ==> mod in s.0)
            && (s.1 ==> r.GetHost? || r.GetRoute?)
  {}

  lemma StepLedger(cfg: Config, a: Agent, m: Message)
    requires Ledger(a)
    ensures Ledger(Step(cfg, a, m))
  {
    hide ServeSlots, Pack, ShardIndex;
    match m
    case Api(port, modid, cmdid, r) => ApiLedger(cfg, a, port, modid, cmdid, r);
    case Answer(modid, cmdid, rsp, now) =>
      var i := ShardIndex(modid, cmdid);
      if 0 <= i < 3 {
        SlotsKeep(cfg, a.tables[i], a.clock, Pack(modid, cmdid), Response(rsp, now));
      }
    case Reconnect(now) =>
  }

  lemma ApiLedger(cfg: Config, a: Agent, port: Port, modid: Int32, cmdid: Int32, r: ApiRequest)
    requires Ledger(a)
    ensures Ledger(Step(cfg, a, Api(port, modid, cmdid, r)))
  {
    hide ServeSlots, Pack, AllBooked, BirthsUnique, NoneOlder;
    var mod := Pack(modid, cmdid);
    var a' := Step(cfg, a, Api(port, modid, cmdid, r));
    SlotsKeep(cfg, a.tables[port], a.clock, mod, r);
    var s := ServeSlots(cfg, a.tables[port], a.clock, mod, r);
    if s.1 {
      PullBooks(a, a', Pull(port, modid, cmdid, s.0[mod].birth));
    } else {
      assert a'.pulls == a.pulls;
      SameBooks(a, a');
    }
  }

  /** Balancers that were there before keep their births. */
  ghost predicate BirthsKept(a: Agent, a': Agent) {
    && |a.tables| == |a'.tables| && a'.clock == a.clock + 1
    && forall i, k | 0 <= i < |a.tables| && k in a'.tables[i] && k in a.tables[i] ::
         a'.tables[i][k].birth == a.tables[i][k].birth
  }

  lemma SameBooks(a: Agent, a': Agent)
    requires Ledger(a) && BirthsKept(a, a') && a'.pulls == a.pulls
    requires forall i, k | 0 <= i < 3 && k in a'.tables[i] :: k in a.tables[i]
    ensures Ledger(a')
  {
    hide Pack, Booked;
  }

  /** A pull of a balancer that was there before, or of the one this message created. */
  lemma PullBooks(a: Agent, a': Agent, next: Pull)
    requires Ledger(a) && BirthsKept(a, a') && a'.pulls == a.pulls + [next]
    requires var mod := Pack(next.modid, next.cmdid);
             && mod in a'.tables[next.port] && a'.tables[next.port][mod].birth == next.birth
             && (mod !in a.tables[next.port] ==> next.birth == a.clock)
             && (forall i, k | 0 <= i < 3 && k in a'.tables[i] && !From(next, i, k) :: k in a.tables[i])
    ensures Ledger(a')
  {
    hide Pack;
    var mod := Pack(next.modid, next.cmdid);
    assert From(next, next.port, mod);
    if mod in a.tables[next.port] {
      assert Booked(a.pulls, next.port, mod, next.birth);
      var p :| p in a.pulls && From(p, next.port, mod) && p.birth == next.birth;
      PackInjective(p.modid, p.cmdid, next.modid, next.cmdid);
      assert p == next;
      MoreBooks(a, a', next);
    } else {
      assert forall p | p in a.pulls :: p.birth < next.birth;
      MoreBooks(a, a', next);
    }
  }

  lemma MoreBooks(a: Agent, a': Agent, next: Pull)
    requires Ledger(a) && BirthsKept(a, a') && a'.pulls == a.pulls + [next]
    requires next in a.pulls || (next.birth == a.clock && forall p | p in a.pulls :: p.birth < next.birth)
    requires forall i, k | 0 <= i < 3 && k in a'.tables[i] && From(next, i, k) :: a'.tables[i][k].birth == next.birth
    requires forall i, k | 0 <= i < 3 && k in a'.tables[i] && (next in a.pulls || !From(next, i, k)) :: k in a.tables[i]
    ensures Ledger(a')
  {
    hide From;
    assert next in a'.pulls && forall p | p in a.pulls :: p in a'.pulls;
    forall i, k | 0 <= i < 3 && k in a'.tables[i] ensures Booked(a'.pulls, i, k, a'.tables[i][k].birth) {
      if !From(next, i, k) {
        assert Booked(a.pulls, i, k, a.tables[i][k].birth);
        var p :| p in a.pulls && From(p, i, k) && p.birth == a.tables[i][k].birth;
      }
    }
  }

  lemma {:induction false} RunLedger(cfg: Config, ms: seq<Message>)
    ensures Ledger(Run(cfg, ms))
  {
    hide Step, Ledger;
    if ms == [] {
      assert Ledger(EMPTY_AGENT) by { NothingPulled(); }
    } else {
      RunLedger(cfg, ms[..|ms| - 1]);
      StepLedger(cfg, Run(cfg, ms[..|ms| - 1]), ms[|ms| - 1]);
    }
  }

  lemma NothingPulled()
    ensures Ledger(EMPTY_AGENT)
  {}

  // ---------------------------------------------------------------- sharding

  /** A key names a module of this shard. */
  ghost predicate Belongs(mod: Key, i: int) {
    exists modid: Int32, cmdid: Int32 :: mod == Pack(modid, cmdid) && ShardIndex(modid, cmdid) == i
  }

  lemma BelongsIff(modid: Int32, cmdid: Int32, i: int)
    ensures Belongs(Pack(modid, cmdid), i) <==> ShardIndex(modid, cmdid) == i
  {
    hide Pack, ShardIndex;
    if Belongs(Pack(modid, cmdid), i) {
      var m: Int32, c: Int32 :| Pack(modid, cmdid) == Pack(m, c) && ShardIndex(m, c) == i;
      PackInjective(modid, cmdid, m, c);
    }
  }

  ghost predicate PullsHome(a: Agent) {
    forall p | p in a.pulls :: p.port == ShardIndex(p.modid, p.cmdid)
  }

  /** Each module lives in the table its ids select, and each pull was sent from there. */
  ghost predicate Sharded(a: Agent) {
    && |a.tables| == 3
    && (forall i, mod | 0 <= i < 3 && mod in a.tables[i] :: Belongs(mod, i))
    && PullsHome(a)
  }

  /** A request for a host or a route at a port its ids do not select. */
  predicate Misrouted(m: Message) {
    m.Api? && !m.r.HostCall? && m.port != ShardIndex(m.modid, m.cmdid)
  }

  lemma HomeIsSharded(a: Agent)
    requires Ledger(a) && PullsHome(a)
    ensures Sharded(a)
  {
    hide Pack, ShardIndex;
    forall i, mod | 0 <= i < 3 && mod in a.tables[i] ensures Belongs(mod, i) {
      assert Booked(a.pulls, i, mod, a.tables[i][mod].birth);
      var p :| p in a.pulls && From(p, i, mod) && p.birth == a.tables[i][mod].birth;
      assert mod == Pack(p.modid, p.cmdid) && ShardIndex(p.modid, p.cmdid) == i;
    }
  }

  /** One message keeps the sharding if and only if it is not misrouted. */
  lemma StepShardedIff(cfg: Config, a: Agent, m: Message)
    requires Sharded(a) && Ledger(a)
    ensures Sharded(Step(cfg, a, m)) <==> !Misrouted(m)
  {
    hide Pack, ShardIndex, Serve, Ledger, Belongs;
    var a' := Step(cfg, a, m);
    StepLedger(cfg, a, m);
    if m.Api? {
      var mod := Pack(m.modid, m.cmdid);
      BelongsIff(m.modid, m.cmdid, m.port);
      SlotsKeep(cfg, a.tables[m.port], a.clock, mod, m.r);
      if Misrouted(m) {
        assert mod !in a.tables[m.port];
        assert Pull(m.port, m.modid, m.cmdid, a.clock) in a'.pulls;
      } else {
        assert m.r.HostCall? ==> a'.pulls == a.pulls;
        assert PullsHome(a');
        HomeIsSharded(a');
      }
    } else {
      assert a'.pulls == a.pulls;
      HomeIsSharded(a');
    }
  }

  /** Over every run: all modules live in the tables their ids select, and all pulls come
      from there, if and only if no request was misrouted. The client sends every request
      to the port the ids select. */
  lemma {:induction false} RunShardedIff(cfg: Config, ms: seq<Message>)
    ensures Sharded(Run(cfg, ms)) <==> forall m | m in ms :: !Misrouted(m)
  {
    hide Ledger, Misrouted, Belongs, ShardIndex, ServeSlots;
    RunLedger(cfg, ms);
    if ms == [] {
      NothingPulled();
      HomeIsSharded(EMPTY_AGENT);
    } else {
      var init, m := ms[..|ms| - 1], ms[|ms| - 1];
      assert ms == init + [m];
      RunShardedIff(cfg, init);
      RunLedger(cfg, init);
      var a := Run(cfg, init);
      if Sharded(Run(cfg, ms)) {
        assert forall p | p in a.pulls :: p in Step(cfg, a, m).pulls;
        HomeIsSharded(a);
      }
      if Sharded(a) { StepShardedIff(cfg, a, m); }
    }
  }

  /** Over runs without misrouted requests no module ever has two balancers. */
  lemma OneBalancer(cfg: Config, ms: seq<Message>)
    requires forall m | m in ms :: !Misrouted(m)
    ensures var a := Run(cfg, ms);
            forall i, j, mod | 0 <= i < 3 && 0 <= j < 3 && mod in a.tables[i] && mod in a.tables[j] :: i == j
  {
    hide Pack, ShardIndex, Run;
    RunShardedIff(cfg, ms);
    var a := Run(cfg, ms);
    forall i, j, mod | 0 <= i < 3 && 0 <= j < 3 && mod in a.tables[i] && mod in a.tables[j] ensures i == j {
      assert Belongs(mod, i) && Belongs(mod, j);
      var m1: Int32, c1: Int32 :| mod == Pack(m1, c1) && ShardIndex(m1, c1) == i;
      BelongsIff(m1, c1, j);
    }
  }

  /** A module asked for at two ports has two balancers. */
  lemma TwoBalancers(cfg: Config, modid: Int32, cmdid: Int32, i: Port, j: Port, now: int)
    requires i != j
    ensures var a := Run(cfg, [Api(i, modid, cmdid, Request.GetHost(now)), Api(j, modid, cmdid, Request.GetHost(now))]);
            Pack(modid, cmdid) in a.tables[i] && Pack(modid, cmdid) in a.tables[j]
  {
    hide Pack;
    var ms := [Api(i, modid, cmdid, Request.GetHost(now)), Api(j, modid, cmdid, Request.GetHost(now))];
    assert ms[..1][..0] == [];
    assert Run(cfg, ms[..1]) == Step(cfg, EMPTY_AGENT, ms[0]);
  }

  // ---------------------------------------------------------------- answers

  lemma SlotsAnswer(cfg: Config, t: map<Key, Slot>, clock: nat, mod: Key, rsp: seq<Addr>, now: int)
    ensures ServeSlots(cfg, t, clock, mod, Response(rsp, now)).0
         == if mod !in t then t
            else if rsp == [] then t - {mod}
            else t[mod := Slot(t[mod].birth, Merge(cfg, t[mod].lb, rsp, now))]
  {
    hide Merge;
  }

  lemma AnswerFaultsIff(cfg: Config, t: map<Key, Slot>, mod: Key, rsp: seq<Addr>, now: int)
    ensures TableFaults(cfg, Lbs(t), mod, Response(rsp, now)) <==> mod in t && rsp != [] && OmitsLost(t[mod].lb, rsp)
  {
    hide OmitsLost;
  }

  /** The answer to a pull from the port its ids select: if the balancer that pulled still
      exists it stands where the answer goes, what stands there is that one or a later
      balancer of the same module, and the answer changes nothing else. It frees a host
      twice exactly when it omits one that balancer freed before. */
  lemma AnswerReachesPuller(cfg: Config, ms: seq<Message>, p: Pull, rsp: seq<Addr>, now: int)
    requires p in Run(cfg, ms).pulls && p.port == ShardIndex(p.modid, p.cmdid)
    ensures var a := Run(cfg, ms);
            var mod, t := Pack(p.modid, p.cmdid), a.tables[p.port];
            var a' := Step(cfg, a, Answer(p.modid, p.cmdid, rsp, now));
            && (forall i, k | 0 <= i < 3 && k in a.tables[i] && a.tables[i][k].birth == p.birth ::
                  i == p.port && k == mod)
            && (mod in t ==> t[mod].birth >= p.birth)
            && (forall i | 0 <= i < 3 && i != p.port :: a'.tables[i] == a.tables[i])
            && a'.tables[p.port] == (if mod !in t then t
                                     else if rsp == [] then t - {mod}
                                     else t[mod := Slot(t[mod].birth, Merge(cfg, t[mod].lb, rsp, now))])
            && (a'.wild <==> a.wild || (mod in t && rsp != [] && OmitsLost(t[mod].lb, rsp)))
  {
    hide Pack, Run, Merge, ShardIndex, OmitsLost, ServeSlots, TableFaults, Lbs;
    RunLedger(cfg, ms);
    var a := Run(cfg, ms);
    SlotsAnswer(cfg, a.tables[p.port], a.clock, Pack(p.modid, p.cmdid), rsp, now);
    AnswerFaultsIff(cfg, a.tables[p.port], Pack(p.modid, p.cmdid), rsp, now);
    assert From(p, p.port, Pack(p.modid, p.cmdid));
    forall i, k | 0 <= i < 3 && k in a.tables[i] && a.tables[i][k].birth == p.birth
      ensures i == p.port && k == Pack(p.modid, p.cmdid)
    {
      var q :| q in a.pulls && From(q, i, k) && q.birth == p.birth;
      assert q == p;
    }
  }

  /** Balancers at ports their ids do not select hold no host. */
  ghost predicate StraysEmpty(a: Agent) {
    forall i, mod | 0 <= i < |a.tables| && mod in a.tables[i] && !Belongs(mod, i) :: a.tables[i][mod].lb.hosts == map[]
  }

  lemma EmptyStays(cfg: Config, t: map<Key, Slot>, clock: nat, mod: Key, r: ApiRequest)
    requires mod in t ==> t[mod].lb.hosts == map[]
    ensures var s := ServeSlots(cfg, t, clock, mod, r);
            mod in s.0 ==> s.0[mod].lb.hosts == map[]
  {}

  /** Over every run, a balancer that a misrouted request created never gets a host: no
      answer reaches it, and it answers every host request with `NoExist`. */
  lemma {:induction false} StrayStaysEmpty(cfg: Config, ms: seq<Message>)
    ensures StraysEmpty(Run(cfg, ms))
  {
    hide Belongs, ServeSlots, Pack, ShardIndex;
    if ms == [] {
    } else {
      var init, m := ms[..|ms| - 1], ms[|ms| - 1];
      StrayStaysEmpty(cfg, init);
      var a := Run(cfg, init);
      match m
      case Api(port, modid, cmdid, r) =>
        var mod := Pack(modid, cmdid);
        SlotsKeep(cfg, a.tables[port], a.clock, mod, r);
        if !Belongs(mod, port) { EmptyStays(cfg, a.tables[port], a.clock, mod, r); }
      case Answer(modid, cmdid, rsp, now) =>
        var i := ShardIndex(modid, cmdid);
        if 0 <= i < 3 {
          SlotsKeep(cfg, a.tables[i], a.clock, Pack(modid, cmdid), Response(rsp, now));
          BelongsIff(modid, cmdid, i);
        }
      case Reconnect(now) =>
    }
  }
}
