/** One route table of the agent: the balancers of its modules, and the discipline by
    which they pull their hosts from the DNS service. */
module RouteLb {
  import opened Words
  import opened LbSpec
  import opened LbRuns
  import opened LbLoss
  import opened LoadBalance

  /** What happens to one balancer between its creation and its deletion. */
  datatype Request = GetHost(now: int) | GetRoute(now: int) | Response(rsp: seq<Addr>, now: int)
                   | HostCall(k: Key, ok: bool, now: int) | Reconnected(now: int)

  /** A balancer as `get_host` and `get_route` create it: empty, with a pull under way. */
  function Created(now: int): (lb: Lb) {
    Lb(map[], [], [], 0, Pulling, now)
  }

  predicate PullDue(cfg: Config, lb: Lb, now: int) {
    lb.status == New && now - lb.lastUpdate > cfg.updateTimeout
  }

  /** The balancer after a request, and whether a pull was sent. An empty balancer
      answers `get_host` without looking at the clock. */
  function Serve(cfg: Config, lb: Lb, r: Request): (res: (Lb, bool)) {
    match r
    case GetHost(now) =>
      if lb.hosts == map[] then (lb, false)
      else
        var lb' := Choose(cfg, lb).0;
        if PullDue(cfg, lb', now) then (lb'.(status := Pulling), true) else (lb', false)
    case GetRoute(now) =>
      if PullDue(cfg, lb, now) then (lb.(status := Pulling), true) else (lb, false)
    case Response(rsp, now) => (Merge(cfg, lb, rsp, now), false)
    case HostCall(k, ok, now) => (Report(cfg, lb, k, ok, now), false)
    case Reconnected(_) => (lb.(status := New), false)
  }

  /** The request makes the process undefined: it reads or frees again a host that was freed,
      or takes the front of an empty list. */
  predicate Faults(cfg: Config, lb: Lb, r: Request) {
    match r
    case GetHost(_) => lb.hosts != map[] && Choose(cfg, lb).1.EmptyFront?
    case GetRoute(_) => AnyLost(lb)
    case Response(rsp, _) => OmitsLost(lb, rsp)
    case HostCall(k, _, _) => Lost(lb, k)
    case Reconnected(_) => false
  }

  function Life(cfg: Config, lb: Lb, rs: seq<Request>): (lb': Lb) {
    if rs == [] then lb else Serve(cfg, Life(cfg, lb, rs[..|rs| - 1]), rs[|rs| - 1]).0
  }

  /** The i-th request sends a pull. */
  predicate PullsAt(cfg: Config, lb: Lb, rs: seq<Request>, i: nat)
    requires i < |rs|
  {
    Serve(cfg, Life(cfg, lb, rs[..i]), rs[i]).1
  }

  function Pulls(cfg: Config, lb: Lb, rs: seq<Request>): (n: nat) {
    if rs == [] then 0
    else Pulls(cfg, lb, rs[..|rs| - 1]) + (if PullsAt(cfg, lb, rs, |rs| - 1) then 1 else 0)
  }

  /** Responses applied and reconnections seen. */
  function Answers(rs: seq<Request>): (n: nat) {
    if rs == [] then 0
    else Answers(rs[..|rs| - 1]) + (if rs[|rs| - 1].Response? || rs[|rs| - 1].Reconnected? then 1 else 0)
  }

  // ---------------------------------------------------------------- what a request keeps

  /** Every request keeps the queues sound and the probe counter in its range; and if it
      does not fault, only a response loses hosts, exactly those it drops. */
  lemma ServeKeeps(cfg: Config, lb: Lb, r: Request)
    requires Queued(lb) && InCycle(cfg, lb)
    ensures var lb' := Serve(cfg, lb, r).0;
            && Queued(lb') && InCycle(cfg, lb')
            && (!Faults(cfg, lb, r) ==>
                  forall k :: Lost(lb', k) <==> Lost(lb, k) || (r.Response? && k in lb.hosts && k !in Remote(r.rsp)))
  {
    hide Queued, Choose, Report, Merge, Lost, FreshHost, Filter, Remote, OmitsLost, AnyLost;
    match r
    case GetHost(now) =>
      ChooseKeepsQueued(cfg, lb);
      Relabel(Choose(cfg, lb).0, Serve(cfg, lb, r).0);
    case GetRoute(now) => Relabel(lb, Serve(cfg, lb, r).0);
    case Response(rsp, now) => MergeFacts(cfg, lb, rsp, now);
    case HostCall(k, ok, now) => ReportFacts(cfg, lb, k, ok, now);
    case Reconnected(_) => Relabel(lb, Serve(cfg, lb, r).0);
  }

  // ---------------------------------------------------------------- a life is a run of the balancer

  /** No request of the life faults. */
  ghost predicate Sound(cfg: Config, lb: Lb, rs: seq<Request>) {
    forall i | 0 <= i < |rs| :: !Faults(cfg, Life(cfg, lb, rs[..i]), rs[i])
  }

  /** What the balancer sees of a request; a reconnection only changes the status. */
  function EventsOf(r: Request): (es: seq<Event>) {
    match r
    case GetHost(_) => [ChooseHost]
    case GetRoute(_) => [ListHosts]
    case Response(rsp, now) => [DnsUpdate(rsp, now)]
    case HostCall(k, ok, now) => [HostReport(k, ok, now)]
    case Reconnected(_) => []
  }

  function Events(rs: seq<Request>): (es: seq<Event>) {
    if rs == [] then [] else Events(rs[..|rs| - 1]) + EventsOf(rs[|rs| - 1])
  }

  /** Equal but for the status and the time of the last update. */
  predicate Alike(a: Lb, b: Lb) {
    a.hosts == b.hosts && a.idle == b.idle && a.over == b.over && a.accessCnt == b.accessCnt
  }

  lemma {:induction false} AddNewAlike(cfg: Config, a: Lb, b: Lb, rsp: seq<Addr>, now: int)
    requires Alike(a, b)
    ensures Alike(AddNew(cfg, a, rsp, now), AddNew(cfg, b, rsp, now))
  {
    if rsp == [] {
    } else {
      AddNewAlike(cfg, a, b, rsp[..|rsp| - 1], now);
    }
  }

  lemma ServeAlike(cfg: Config, a: Lb, b: Lb, r: Request)
    requires Alike(a, b)
    ensures var es := EventsOf(r);
            if es == [] then !Faults(cfg, a, r) && Alike(Serve(cfg, a, r).0, b)
            else var m := Step(cfg, false, b, es[0]);
                 (Faults(cfg, a, r) <==> !m.Defined?) && (m.Defined? ==> Alike(Serve(cfg, a, r).0, m.lb))
  {
    hide ReportHost, Remove, Filter, Remote;
    if r.Response? { AddNewAlike(cfg, a, b, r.rsp, r.now); }
  }

  /** A life in the route table is a run of the balancer: it is sound exactly when that run
      is defined, and then they agree on hosts, queues and counter. So what is proved of
      runs from creation holds of lives. */
  lemma {:induction false} LifeIsRun(cfg: Config, t0: int, rs: seq<Request>)
    ensures var m := Run(cfg, Empty(t0), Events(rs));
            && (Sound(cfg, Created(t0), rs) <==> m.Defined?)
            && (m.Defined? ==> Alike(Life(cfg, Created(t0), rs), m.lb))
  {
    hide Serve, Faults, Step, RunWith, EventsOf;
    if rs == [] {
      NoEvents(cfg, false, Empty(t0));
    } else {
      var n := |rs| - 1;
      var init, r := rs[..n], rs[n];
      LifeIsRun(cfg, t0, init);
      SoundSnoc(cfg, Created(t0), rs);
      var before := Run(cfg, Empty(t0), Events(init));
      var es := EventsOf(r);
      OneEvent(r);
      if before.Defined? {
        ServeAlike(cfg, Life(cfg, Created(t0), init), before.lb, r);
        RunAppend(cfg, Empty(t0), Events(init), es);
        if es == [] { NoEvents(cfg, false, before.lb); } else { RunOne(cfg, before.lb, es[0]); }
      } else {
        UndefinedStays(cfg, Empty(t0), Events(init), es);
      }
    }
  }

  lemma OneEvent(r: Request)
    ensures EventsOf(r) == [] || EventsOf(r) == [EventsOf(r)[0]]
  {}

  lemma SoundSnoc(cfg: Config, lb: Lb, rs: seq<Request>)
    requires rs != []
    ensures var n := |rs| - 1;
            Sound(cfg, lb, rs) <==> Sound(cfg, lb, rs[..n]) && !Faults(cfg, Life(cfg, lb, rs[..n]), rs[n])
  {
    hide Life, Faults;
    var init := rs[..|rs| - 1];
    assert forall i | 0 <= i < |init| :: init[..i] == rs[..i] && init[i] == rs[i];
  }

  lemma {:induction false} UndefinedStays(cfg: Config, lb: Lb, a: seq<Event>, b: seq<Event>)
    requires !Run(cfg, lb, a).Defined?
    ensures !Run(cfg, lb, a + b).Defined?
  {
    hide Step;
    if b == [] {
      assert a + b == a;
    } else {
      assert (a + b)[..|a + b| - 1] == a + b[..|b| - 1];
      UndefinedStays(cfg, lb, a, b[..|b| - 1]);
    }
  }

  /** Over every sound life of a balancer its queues are sound; the lost hosts are exactly
      those that some response dropped; and the next host request takes the front of an
      empty list exactly when the counter is at its limit and every host ever listed has
      been dropped. */
  lemma LifeKeeps(cfg: Config, t0: int, rs: seq<Request>)
    requires Sound(cfg, Created(t0), rs)
    ensures var lb, es := Life(cfg, Created(t0), rs), Events(rs);
            && Queued(lb) && InCycle(cfg, lb)
            && (forall k :: k in lb.hosts <==> ListedIn(es, k))
            && (forall k :: Lost(lb, k) <==> DroppedIn(es, k))
            && (Choose(cfg, lb).1.EmptyFront? <==>
                  lb.accessCnt >= cfg.probeNum && forall k | ListedIn(es, k) :: DroppedIn(es, k))
  {
    hide Life, RunWith, Queued, InCycle, Choose, ListedIn, DroppedIn, Lost, Sound, Alike;
    var lb, es := Life(cfg, Created(t0), rs), Events(rs);
    LifeIsRun(cfg, t0, rs);
    EmptyQueued(cfg, t0);
    RunKeepsQueued(cfg, false, Empty(t0), es);
    AlikeKeeps(cfg, lb, Run(cfg, Empty(t0), es).lb);
    forall k ensures (k in lb.hosts <==> ListedIn(es, k)) && (Lost(lb, k) <==> DroppedIn(es, k)) {
      RunLostIff(cfg, t0, es, k);
    }
    ChooseKeepsQueued(cfg, lb);
  }

  lemma AlikeKeeps(cfg: Config, a: Lb, b: Lb)
    requires Alike(a, b) && Queued(b) && InCycle(cfg, b)
    ensures Queued(a) && InCycle(cfg, a) && a.hosts == b.hosts && forall k :: Lost(a, k) <==> Lost(b, k)
  {}

  /** When a request pulls, and how it moves the status and the time of the last update. */
  lemma ServeStatus(cfg: Config, lb: Lb, r: Request)
    ensures var (lb', pulled) := Serve(cfg, lb, r);
            && (pulled <==> (r.GetRoute? || (r.GetHost? && lb.hosts != map[])) && PullDue(cfg, lb, r.now))
            && lb'.status == (if pulled then Pulling else if r.Response? || r.Reconnected? then New else lb.status)
            && lb'.lastUpdate == (if r.Response? then r.now else lb.lastUpdate)
  {}

  // ---------------------------------------------------------------- pull discipline

  /** Over every life of a balancer, counting the pull of its creation: never more pulls
      than answers, plus one while a pull is under way. */
  lemma {:induction false} PullsAnswered(cfg: Config, t0: int, rs: seq<Request>)
    ensures var lb := Life(cfg, Created(t0), rs);
            1 + Pulls(cfg, Created(t0), rs) <= Answers(rs) + (if lb.status == Pulling then 1 else 0)
  {
    hide Serve;
    if rs == [] {
    } else {
      var init := rs[..|rs| - 1];
      PullsAnswered(cfg, t0, init);
      ServeStatus(cfg, Life(cfg, Created(t0), init), rs[|rs| - 1]);
    }
  }

  /** Requests come in the order of the clock. */
  ghost predicate Clocked(t: int, rs: seq<Request>) {
    && (forall i | 0 <= i < |rs| :: t <= rs[i].now)
    && (forall i, j | 0 <= i < j < |rs| :: rs[i].now <= rs[j].now)
  }

  ghost predicate NoReconnect(rs: seq<Request>) {
    forall i | 0 <= i < |rs| :: !rs[i].Reconnected?
  }

  lemma {:induction false} UpdatedSince(cfg: Config, lb: Lb, t: int, rs: seq<Request>)
    requires lb.status == Pulling || lb.lastUpdate >= t
    requires Clocked(t, rs) && NoReconnect(rs)
    ensures var lb' := Life(cfg, lb, rs); lb'.status == Pulling || lb'.lastUpdate >= t
  {
    hide Serve;
    if rs == [] {
    } else {
      var init := rs[..|rs| - 1];
      UpdatedSince(cfg, lb, t, init);
      ServeStatus(cfg, Life(cfg, lb, init), rs[|rs| - 1]);
    }
  }

  /** After a pull at time t, and as long as the connection to the DNS service is not
      re-established, the next pull comes more than the update timeout later. */
  lemma PullsApart(cfg: Config, lb: Lb, t: int, rs: seq<Request>, j: nat)
    requires lb.status == Pulling
    requires Clocked(t, rs) && NoReconnect(rs) && j < |rs| && PullsAt(cfg, lb, rs, j)
    ensures rs[j].now - t > cfg.updateTimeout
  {
    hide Serve, Life;
    UpdatedSince(cfg, lb, t, rs[..j]);
    ServeStatus(cfg, Life(cfg, lb, rs[..j]), rs[j]);
  }

  /** The same between any two pulls of one life, and none is sent while one is under way. */
  lemma PullsSpaced(cfg: Config, t0: int, rs: seq<Request>, i: nat, j: nat)
    requires Clocked(t0, rs) && i < j < |rs|
    requires PullsAt(cfg, Created(t0), rs, i) && PullsAt(cfg, Created(t0), rs, j)
    requires NoReconnect(rs[i + 1..j])
    ensures rs[j].now - rs[i].now > cfg.updateTimeout
    ensures Life(cfg, Created(t0), rs[..i]).status == Life(cfg, Created(t0), rs[..j]).status == New
  {
    hide Serve;
    var lb0 := Created(t0);
    ServeStatus(cfg, Life(cfg, lb0, rs[..i]), rs[i]);
    ServeStatus(cfg, Life(cfg, lb0, rs[..j]), rs[j]);
    assert rs[..i + 1][..i] == rs[..i];
    var lb := Life(cfg, lb0, rs[..i + 1]);
    assert lb == Serve(cfg, Life(cfg, lb0, rs[..i]), rs[i]).0;
    var mid := rs[i + 1..j];
    LifeAppend(cfg, lb0, rs[..i + 1], mid);
    assert rs[..i + 1] + mid == rs[..j];
    forall k | 0 <= k < |mid| ensures mid[k] == rs[i + 1 + k] {}
    UpdatedSince(cfg, lb, rs[i].now, mid);
  }

  lemma {:induction false} LifeAppend(cfg: Config, lb: Lb, a: seq<Request>, b: seq<Request>)
    ensures Life(cfg, lb, a + b) == Life(cfg, Life(cfg, lb, a), b)
  {
    if b == [] {
      assert a + b == a;
    } else {
      assert (a + b)[..|a + b| - 1] == a + b[..|b| - 1];
      LifeAppend(cfg, lb, a, b[..|b| - 1]);
    }
  }

  // ---------------------------------------------------------------- when a pull is sent

  /** The time of the last answer, or of the creation. */
  function LastAnswer(t0: int, rs: seq<Request>): (t: int) {
    if rs == [] then t0
    else if rs[|rs| - 1].Response? then rs[|rs| - 1].now
    else LastAnswer(t0, rs[..|rs| - 1])
  }

  /** Since the j-th request, an answer or a reconnection, no pull was sent. */
  ghost predicate ReleasedAt(cfg: Config, t0: int, rs: seq<Request>, j: nat) {
    && j < |rs| && (rs[j].Response? || rs[j].Reconnected?)
    && forall i | j < i < |rs| :: !PullsAt(cfg, Created(t0), rs, i)
  }

  /** No pull is under way: the last one was answered or forgotten by a reconnection. */
  ghost predicate Released(cfg: Config, t0: int, rs: seq<Request>) {
    exists j: nat :: ReleasedAt(cfg, t0, rs, j)
  }

  /** Some answer listed a host. */
  ghost predicate Filled(rs: seq<Request>) {
    exists i :: 0 <= i < |rs| && rs[i].Response? && rs[i].rsp != []
  }

  lemma {:induction false} AddNewEmptyIff(cfg: Config, lb: Lb, rsp: seq<Addr>, now: int)
    ensures AddNew(cfg, lb, rsp, now).hosts == map[] <==> lb.hosts == map[] && rsp == []
  {
    hide KeyOf, NewHost;
    if rsp == [] {
    } else {
      AddNewEmptyIff(cfg, lb, rsp[..|rsp| - 1], now);
      assert KeyOf(rsp[|rsp| - 1]) in AddNew(cfg, lb, rsp, now).hosts;
    }
  }

  lemma ServeEmptyIff(cfg: Config, lb: Lb, r: Request)
    ensures Serve(cfg, lb, r).0.hosts == map[] <==> lb.hosts == map[] && !(r.Response? && r.rsp != [])
  {
    hide ReportHost, AddNew, Filter, Remove;
    if r.Response? { AddNewEmptyIff(cfg, lb, r.rsp, r.now); }
    if r.HostCall? && r.k in lb.hosts { assert r.k in Serve(cfg, lb, r).0.hosts; }
  }

  /** What the history of a life says about its balancer. */
  lemma {:induction false} LifeHistory(cfg: Config, t0: int, rs: seq<Request>)
    ensures var lb := Life(cfg, Created(t0), rs);
            && lb.lastUpdate == LastAnswer(t0, rs)
            && (lb.status == New <==> Released(cfg, t0, rs))
            && (lb.hosts != map[] <==> Filled(rs))
  {
    hide Serve, PullDue;
    if rs == [] {
    } else {
      var n := |rs| - 1;
      var init, r := rs[..n], rs[n];
      LifeHistory(cfg, t0, init);
      ServeStatus(cfg, Life(cfg, Created(t0), init), r);
      ServeEmptyIff(cfg, Life(cfg, Created(t0), init), r);
      ReleasedSnoc(cfg, t0, rs);
      FilledSnoc(rs);
    }
  }

  lemma FilledSnoc(rs: seq<Request>)
    requires rs != []
    ensures var n := |rs| - 1; Filled(rs) <==> Filled(rs[..n]) || (rs[n].Response? && rs[n].rsp != [])
  {
    var n := |rs| - 1;
    var init := rs[..n];
    if Filled(init) {
      var i :| 0 <= i < |init| && init[i].Response? && init[i].rsp != [];
      assert rs[i] == init[i];
    }
  }

  lemma ReleasedSnoc(cfg: Config, t0: int, rs: seq<Request>)
    requires rs != []
    ensures var n := |rs| - 1;
            Released(cfg, t0, rs) <==>
              || rs[n].Response? || rs[n].Reconnected?
              || (Released(cfg, t0, rs[..n]) && !PullsAt(cfg, Created(t0), rs, n))
  {
    hide Life, Serve;
    var n := |rs| - 1;
    var init := rs[..n];
    assert forall i | 0 <= i < n :: init[..i] == rs[..i] && init[i] == rs[i];
    forall i | 0 <= i < n ensures PullsAt(cfg, Created(t0), init, i) <==> PullsAt(cfg, Created(t0), rs, i) {}
    if rs[n].Response? || rs[n].Reconnected? { assert ReleasedAt(cfg, t0, rs, n); }
    if Released(cfg, t0, init) && !PullsAt(cfg, Created(t0), rs, n) {
      var j: nat :| ReleasedAt(cfg, t0, init, j);
      assert ReleasedAt(cfg, t0, rs, j);
    }
    if j: nat :| ReleasedAt(cfg, t0, rs, j) && j < n {
      assert ReleasedAt(cfg, t0, init, j);
    }
  }

  /** When a pull is sent, read off the history of a life: exactly when a request for the
      route comes, or one for a host after some answer listed one; the last pull was
      answered, or forgotten by a reconnection, and none was sent since; and the last
      answer, or the creation, is more than the update timeout ago. */
  lemma PullsIff(cfg: Config, t0: int, rs: seq<Request>, n: nat)
    requires n < |rs|
    ensures PullsAt(cfg, Created(t0), rs, n) <==>
              && (rs[n].GetRoute? || (rs[n].GetHost? && Filled(rs[..n])))
              && Released(cfg, t0, rs[..n])
              && rs[n].now - LastAnswer(t0, rs[..n]) > cfg.updateTimeout
  {
    hide Serve, Life, Filled, Released, LastAnswer;
    LifeHistory(cfg, t0, rs[..n]);
    ServeStatus(cfg, Life(cfg, Created(t0), rs[..n]), rs[n]);
  }

  /** An empty balancer whose answer got lost: neither `get_host` nor a reconnection ever
      makes it pull again; it stays empty until someone asks for the whole route. */
  lemma {:induction false} EmptyNeverPulls(cfg: Config, lb: Lb, rs: seq<Request>)
    requires lb.hosts == map[]
    requires forall i | 0 <= i < |rs| :: rs[i].GetHost? || rs[i].HostCall? || rs[i].Reconnected?
    ensures Life(cfg, lb, rs).hosts == map[] && Pulls(cfg, lb, rs) == 0
  {
    hide Choose, Merge;
    if rs == [] {
    } else {
      EmptyNeverPulls(cfg, lb, rs[..|rs| - 1]);
    }
  }

  // ---------------------------------------------------------------- the table

  /** A table after a request about one module, and whether a pull was sent: an unknown
      module is created by `get_host` and `get_route` and ignored otherwise, and an empty
      answer deletes its module. */
  function ServeTable(cfg: Config, t: map<Key, Lb>, mod: Key, r: Request): (res: (map<Key, Lb>, bool)) {
    if mod in t then
      if r.Response? && r.rsp == [] then (t - {mod}, false)
      else
        var s := Serve(cfg, t[mod], r);
        (t[mod := s.0], s.1)
    else if r.GetHost? || r.GetRoute? then (t[mod := Created(r.now)], true)
    else (t, false)
  }

  /** What a request does to a table: other modules are untouched; an unknown module is
      created without hosts and with a pull under way since now, or ignored; an empty answer
      removes its module; and any other request is served. */
  lemma TableServes(cfg: Config, t: map<Key, Lb>, mod: Key, r: Request)
    ensures var (t', pulled) := ServeTable(cfg, t, mod, r);
            && (forall k | k != mod :: (k in t' <==> k in t) && (k in t ==> t'[k] == t[k]))
            && (mod !in t ==> (mod in t' <==> r.GetHost? || r.GetRoute?) && (pulled <==> mod in t'))
            && (mod !in t && mod in t' ==>
                  && t'[mod].hosts == map[] && t'[mod].idle == [] && t'[mod].over == [] && t'[mod].accessCnt == 0
                  && t'[mod].status == Pulling && t'[mod].lastUpdate == r.now)
            && (mod in t ==> (mod !in t' <==> r.Response? && r.rsp == []))
            && (mod in t && mod in t' ==> (t'[mod], pulled) == Serve(cfg, t[mod], r))
  {
    hide Serve;
  }

  /** The request reaches a balancer and faults there; an empty answer only deletes it. */
  predicate TableFaults(cfg: Config, t: map<Key, Lb>, mod: Key, r: Request) {
    mod in t && !(r.Response? && r.rsp == []) && Faults(cfg, t[mod], r)
  }

  /** `Undefined`: the choice took the front of an empty list. */
  datatype RetCode = Succ | Overload | NoExist | Undefined

  class Table {
    const cfg: Config
    var lbs: map<Key, Balancer>

    ghost function HostObjects(): (hs: set<HostInfo>)
      reads this, lbs.Values
    {
      set b, h | b in lbs.Values && h in b.hostMap.Values :: h
    }

    ghost function Model(): (t: map<Key, Lb>)
      reads this, lbs.Values, HostObjects()
    {
      map mod | mod in lbs :: Own(mod); lbs[mod].State()
    }

    /** The objects of one balancer are among those of the table. */
    lemma Own(mod: Key)
      requires mod in lbs
      ensures lbs[mod] in lbs.Values && lbs[mod].hostMap.Values <= HostObjects()
    {}

    ghost predicate Good(mod: Key)
      requires mod in lbs
      reads this, lbs.Values, HostObjects()
    {
      Own(mod);
      lbs[mod].Valid() && lbs[mod].cfg == cfg && InCycle(cfg, lbs[mod].State())
    }

    ghost predicate Separate(mod: Key, other: Key)
      requires mod in lbs && other in lbs
      reads this, lbs.Values
    {
      lbs[mod] != lbs[other] && lbs[mod].hostMap.Values !! lbs[other].hostMap.Values
    }

    ghost predicate Alone(mod: Key)
      requires mod in lbs
      reads this, lbs.Values
    {
      forall other | other in lbs && other != mod :: Separate(mod, other)
    }

    /** Each balancer is valid, and no two share an object. */
    ghost predicate Valid()
      reads this, lbs.Values, HostObjects()
    {
      && (forall mod | mod in lbs :: Good(mod))
      && (forall mod | mod in lbs :: Alone(mod))
    }

    constructor (cfg: Config)
      ensures Valid() && this.cfg == cfg && Model() == map[]
    {
      this.cfg, lbs := cfg, map[];
    }

    lemma ModelKeys()
      ensures Model().Keys == lbs.Keys
    {}

    /** What the invariant says of one balancer. */
    lemma Ready(mod: Key)
      requires Valid() && mod in lbs
      ensures Model().Keys == lbs.Keys && Model()[mod] == lbs[mod].State()
      ensures lbs[mod].Valid() && Queued(lbs[mod].State())
      ensures lbs[mod].cfg == cfg && InCycle(cfg, lbs[mod].State())
      ensures lbs[mod] in lbs.Values && lbs[mod].hostMap.Values <= HostObjects()
    {
      hide Queued, Listed, Keys, InCycle;
      assert Good(mod);
    }

    /** This balancer and its hosts are as they were. */
    twostate predicate Kept(other: Key)
      reads this, lbs.Values, HostObjects()
    {
      && other in old(lbs) && other in lbs && lbs[other] == old(lbs[other]) && unchanged(lbs[other])
      && forall h | h in lbs[other].hostMap.Values :: unchanged(h)
    }

    /** This balancer is valid; it and its hosts were its own before, or are new. */
    twostate predicate Served(mod: Key)
      reads this, lbs.Values, HostObjects()
    {
      && mod in lbs && Good(mod)
      && (if mod in old(lbs) then lbs[mod] == old(lbs[mod]) else fresh(lbs[mod]))
      && forall h | h in lbs[mod].hostMap.Values ::
           (mod in old(lbs) && h in old(lbs[mod].hostMap.Values)) || fresh(h)
    }

    /** One balancer changed, or is new; the others are as they were. */
    twostate lemma OneServed(mod: Key)
      requires old(Valid()) && Served(mod) && lbs == old(lbs)[mod := lbs[mod]]
      requires forall other | other in old(lbs) && other != mod :: Kept(other)
      ensures Valid() && Model() == old(Model())[mod := lbs[mod].State()]
    {
      hide Good, Alone, Kept, Served, Model;
      AllGood(mod);
      AllAlone(mod);
      ModelServed(mod);
    }

    /** The same for a balancer that was in the table, when nothing outside it changed. */
    twostate lemma ServedAlone(mod: Key)
      requires old(Valid()) && mod in lbs && lbs == old(lbs)
      requires lbs[mod].Valid() && lbs[mod].cfg == cfg && InCycle(cfg, lbs[mod].State())
      requires forall h | h in lbs[mod].hostMap.Values :: h in old(lbs[mod].hostMap.Values) || fresh(h)
      requires forall b | b in lbs.Values && b != lbs[mod] :: unchanged(b)
      requires forall h | h in old(HostObjects()) && h !in old(lbs[mod].hostMap.Values) :: unchanged(h)
      ensures Valid() && Model() == old(Model())[mod := lbs[mod].State()]
    {
      hide Queued, Listed, Keys, InCycle, Model;
      forall other | other in lbs && other != mod ensures Kept(other) {
        assert old(Alone(mod)) && old(Separate(mod, other));
        assert lbs[other] in lbs.Values;
        assert forall h | h in old(lbs[other].hostMap.Values) :: h in old(HostObjects());
      }
      OneServed(mod);
    }

    twostate lemma ModelServed(mod: Key)
      requires old(Valid()) && Served(mod) && lbs == old(lbs)[mod := lbs[mod]]
      requires forall other | other in old(lbs) && other != mod :: Kept(other)
      ensures Model() == old(Model())[mod := lbs[mod].State()]
    {
      hide Good, Separate, Kept, Balancer.State, HostObjects;
      forall other | other in old(lbs) && other != mod
        ensures lbs[other].State() == old(lbs[other].State())
      {
        StateKept(other);
      }
    }

    twostate lemma AllGood(mod: Key)
      requires old(Valid()) && Served(mod) && lbs == old(lbs)[mod := lbs[mod]]
      requires forall other | other in old(lbs) && other != mod :: Kept(other)
      ensures forall other | other in lbs :: Good(other)
    {
      hide Good, Separate, Kept, Balancer.State, HostObjects;
      forall other | other in old(lbs) && other != mod ensures Good(other) {
        StateKept(other);
      }
    }

    twostate lemma AllAlone(mod: Key)
      requires old(Valid()) && Served(mod) && lbs == old(lbs)[mod := lbs[mod]]
      requires forall other | other in old(lbs) && other != mod :: Kept(other)
      ensures forall a | a in lbs :: Alone(a)
    {
      hide Good, HostObjects;
      assert forall a | a in old(lbs) :: old(Alone(a));
    }

    twostate lemma StateKept(other: Key)
      requires other in old(lbs) && old(Good(other)) && Kept(other)
      ensures lbs[other].State() == old(lbs[other].State()) && Good(other)
    {
      hide Queued, Listed, Keys, InCycle;
      lbs[other].HostsKept();
    }

    /** `get_host`: an unknown module is created and pulled, a known one serves a host. The
        choice fails exactly when the counter is at its limit and no host of a nonempty
        module is on a queue. */
    method GetHost(modid: Int32, cmdid: Int32, now: int) returns (code: RetCode, choice: Choice, pulled: bool)
      requires Valid()
      modifies this, lbs.Values
      ensures Valid()
      ensures var mod := Pack(modid, cmdid);
              && (Model(), pulled) == ServeTable(cfg, old(Model()), mod, Request.GetHost(now))
              && (mod !in old(Model()) || old(Model())[mod].hosts == map[] ==> code == NoExist)
              && (mod in old(Model()) && old(Model())[mod].hosts != map[] ==>
                    var lb := old(Model())[mod];
                    && choice == Choose(cfg, lb).1
                    && (code == Succ <==> choice.Picked?) && (code == Overload <==> choice.AllOverloaded?)
                    && (code == Succ ==> choice.k in lb.hosts && !Lost(lb, choice.k))
                    && (code == Undefined <==> lb.accessCnt >= cfg.probeNum && AllLost(lb)))
    {
      hide Queued, LbSpec.Choose, Pack, Lost, AllLost, Balancer.Valid, Balancer.State, Valid, Model;
      var mod := Pack(modid, cmdid);
      choice := AllOverloaded;
      ModelKeys();
      if mod in lbs {
        var b := lbs[mod];
        Ready(mod);
        b.HostKeys();
        if b.hostMap == map[] {
          assert Model()[mod := b.State()] == Model();
          return NoExist, choice, false;
        }
        ChooseKeepsQueued(cfg, b.State());
        choice := b.Choose();
        pulled := PullIfDue(b, now);
        ServedAlone(mod);
        code := if choice.Picked? then Succ else if choice.AllOverloaded? then Overload else Undefined;
      } else {
        Create(mod, now);
        return NoExist, choice, true;
      }
    }

    /** The pull that `get_host` and `get_route` trigger after the update timeout. */
    static method PullIfDue(b: Balancer, now: int) returns (pulled: bool)
      requires b.Valid()
      modifies b`status
      ensures b.Valid() && pulled == PullDue(b.cfg, old(b.State()), now)
      ensures b.State() == if pulled then old(b.State()).(status := Pulling) else old(b.State())
    {
      pulled := b.status == New && now - b.lastUpdate > b.cfg.updateTimeout;
      if pulled { b.Pull(); }
    }

    /** A new balancer enters the table with a pull under way. */
    method Create(mod: Key, now: int)
      requires Valid() && mod !in lbs
      modifies this`lbs
      ensures Valid() && Model() == old(Model())[mod := Created(now)]
    {
      hide Queued, Listed, Keys;
      var b := new Balancer(cfg, now);
      b.Pull();
      lbs := lbs[mod := b];
      OneServed(mod);
    }

    /** `get_route`: all hosts of a known module, due for a pull or not. It reads freed
        memory exactly when a host of the module was freed. */
    method GetRoute(modid: Int32, cmdid: Int32, now: int)
      returns (code: RetCode, hosts: set<Key>, pulled: bool, fault: bool)
      requires Valid()
      modifies this, lbs.Values
      ensures fault <==> TableFaults(cfg, old(Model()), Pack(modid, cmdid), Request.GetRoute(now))
      ensures !fault ==>
              var mod := Pack(modid, cmdid);
              && Valid()
              && (Model(), pulled) == ServeTable(cfg, old(Model()), mod, Request.GetRoute(now))
              && (mod !in old(Model()) ==> code == NoExist && hosts == {})
              && (mod in old(Model()) ==> code == Succ && hosts == old(Model())[mod].hosts.Keys)
    {
      hide Queued, Pack, Balancer.Valid, Balancer.State, Valid, Model, AnyLost;
      ModelKeys();
      var mod := Pack(modid, cmdid);
      if mod in lbs {
        var b := lbs[mod];
        Ready(mod);
        b.HostKeys();
        hosts, fault := b.GetAllHosts();
        if fault { return Succ, hosts, false, true; }
        pulled := PullIfDue(b, now);
        ServedAlone(mod);
        code := Succ;
      } else {
        Create(mod, now);
        return NoExist, {}, true, false;
      }
    }

    /** `update_host`: an empty answer deletes the module, an unknown module is ignored. It
        frees a host a second time exactly when the answer omits one that was freed. */
    method UpdateHost(modid: Int32, cmdid: Int32, rsp: seq<Addr>, now: int) returns (fault: bool)
      requires Valid()
      modifies this, lbs.Values
      ensures fault <==> TableFaults(cfg, old(Model()), Pack(modid, cmdid), Response(rsp, now))
      ensures !fault ==> Valid() && Model() == ServeTable(cfg, old(Model()), Pack(modid, cmdid), Response(rsp, now)).0
    {
      hide Queued, Merge, Pack, Balancer.Valid, Balancer.State, FreshHost, Filter, Valid, Model, OmitsLost;
      ModelKeys();
      var mod := Pack(modid, cmdid);
      fault := false;
      if mod in lbs {
        if rsp == [] {
          Delete(mod);
        } else {
          var b := lbs[mod];
          Ready(mod);
          MergeLost(cfg, b.State(), rsp, now);
          MergeKeepsCycle(cfg, b.State(), rsp, now);
          var needDelete;
          needDelete, fault := b.Merge(rsp, now);
          if fault { return; }
          ServedAlone(mod);
        }
      }
    }

    method Delete(mod: Key)
      requires Valid() && mod in lbs
      modifies this`lbs
      ensures Valid() && Model() == old(Model()) - {mod}
    {
      hide Balancer.Valid, Balancer.State, InCycle;
      lbs := lbs - {mod};
      forall other | other in lbs ensures Good(other) && lbs[other].State() == old(lbs[other].State()) {
        assert old(Good(other));
      }
      forall a | a in lbs ensures Alone(a) {
        assert old(Alone(a));
      }
    }

    /** `report_host`: the report goes to the host its address packs to, and the counts of
        all queued hosts of the module are committed. A report about a host that was freed
        reads freed memory. */
    method ReportHost(modid: Int32, cmdid: Int32, ip: Int32, port: Int32, retcode: int, now: int)
      returns (sent: bool, results: seq<CallResult>, fault: bool)
      requires Valid()
      modifies lbs.Values, HostObjects()
      ensures fault <==> TableFaults(cfg, old(Model()), Pack(modid, cmdid), HostCall(Pack(ip, port), retcode == 0, now))
      ensures !fault ==>
              var mod := Pack(modid, cmdid);
              && Valid()
              && Model() == ServeTable(cfg, old(Model()), mod, HostCall(Pack(ip, port), retcode == 0, now)).0
              && (sent <==> mod in Model() && Model()[mod].hosts.Keys != {})
              && (sent ==>
                    var lb := Model()[mod];
                    && Queued(lb) && |results| == |Order(lb)| && NoDup(Order(lb))
                    && (forall i | 0 <= i < |results| :: LineOf(results[i], lb, Order(lb)[i]))
                    && (forall k | k in lb.hosts :: k in Order(lb) <==> !Lost(lb, k)))
    {
      hide Queued, Report, Pack, Balancer.Valid, Balancer.State, Results, Order, LineOf, Valid, Model, Lost;
      ModelKeys();
      var mod := Pack(modid, cmdid);
      sent, results, fault := false, [], false;
      if mod in lbs {
        var b := lbs[mod];
        Ready(mod);
        ReportFacts(cfg, b.State(), Pack(ip, port), retcode == 0, now);
        fault := b.Report(ip, port, retcode, now);
        if fault { return; }
        sent, results := b.Commit();
        b.HostKeys();
        ServedAlone(mod);
      }
    }

    /** `reset_lb_status`: every balancer may pull again. */
    method ResetStatus()
      requires Valid()
      modifies lbs.Values
      ensures Valid() && Model() == ResetTable(old(Model())) && Model().Keys == old(Model()).Keys
      ensures forall mod | mod in Model() ::
                && Model()[mod].status == New && Alike(Model()[mod], old(Model())[mod])
                && Model()[mod].lastUpdate == old(Model())[mod].lastUpdate
    {
      hide Queued, Balancer.Valid, Balancer.State, Valid, Model, HostObjects;
      ModelKeys();
      var todo := lbs.Keys;
      while todo != {}
        invariant Valid() && lbs == old(lbs) && todo <= lbs.Keys
        invariant Model().Keys == old(Model()).Keys
        invariant forall mod | mod in lbs ::
                    Model()[mod] == if mod in todo then old(Model())[mod] else old(Model())[mod].(status := New)
        decreases todo
      {
        var mod :| mod in todo;
        ResetOne(mod);
        todo := todo - {mod};
      }
    }

    method ResetOne(mod: Key)
      requires Valid() && mod in lbs
      modifies lbs.Values
      ensures Valid() && mod in old(Model())
      ensures Model() == old(Model())[mod := old(Model())[mod].(status := New)]
    {
      hide Queued, Balancer.Valid, Balancer.State, Valid, Model;
      Ready(mod);
      lbs[mod].Reset();
      ServedAlone(mod);
    }
  }

  function ResetTable(t: map<Key, Lb>): (t': map<Key, Lb>) {
    map mod | mod in t :: t[mod].(status := New)
  }

  /** The whole path of a host: the address a managed host is handed out with, carried in
      signed message fields, leads a later report back to the same entry. */
  lemma HandedOutIsFound(cfg: Config, lb: Lb, k: Key, ok: bool, now: int)
    requires Queued(lb) && k in lb.hosts
    ensures var h := lb.hosts[k];
            var found := Pack(ToInt32(h.ip), h.port);
            && found == k
            && Report(cfg, lb, found, ok, now).hosts == lb.hosts[k := ReportHost(cfg, h, ok, now)]
  {
    hide Pack, LbSpec.ReportHost;
    PackIgnoresSign(lb.hosts[k].ip, lb.hosts[k].port);
  }
}
