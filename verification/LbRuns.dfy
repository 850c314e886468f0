/** What every run of the load balancer keeps. */
module LbRuns {
  import opened Words
  import opened LbSpec

  /** No queue lists a host twice; a host on a queue is in the map with the flag of that
      queue, so it is on one queue only; each key packs the ip and port of its host. */
  ghost predicate Queued(lb: Lb) {
    && NoDup(lb.idle) && NoDup(lb.over)
    && (forall k | k in lb.idle :: k in lb.hosts && !lb.hosts[k].overload)
    && (forall k | k in lb.over :: k in lb.hosts && lb.hosts[k].overload)
    && (forall k | k in lb.hosts :: k == Pack(lb.hosts[k].ip, lb.hosts[k].port))
  }

  ghost predicate AllLost(lb: Lb) { forall k | k in lb.hosts :: Lost(lb, k) }

  /** The hosts in the map are the disjoint union of the two queues. */
  ghost predicate Partition(lb: Lb) {
    Queued(lb) && forall k | k in lb.hosts :: !Lost(lb, k)
  }

  /** A host that stays idle is below both limits for overload, and one that stays
      overloaded is below both limits for idle. */
  ghost predicate HostWithin(cfg: Config, h: Host) {
    if h.overload then
      && h.vsucc as real <= cfg.succRate * (h.vsucc + h.verr) as real
      && h.continSucc < cfg.continSuccLimit
    else
      && h.verr as real <= cfg.errRate * (h.vsucc + h.verr) as real
      && h.continErr < cfg.continErrLimit
  }

  ghost predicate Within(cfg: Config, lb: Lb) {
    forall k | k in lb.hosts :: HostWithin(cfg, lb.hosts[k])
  }

  /** The settings under which the thresholds can hold at all: the shipped ones do. */
  predicate Sane(cfg: Config) {
    cfg.errRate >= 0.0 && cfg.succRate >= 0.0 && cfg.continErrLimit >= 1 && cfg.continSuccLimit >= 1
  }

  predicate InCycle(cfg: Config, lb: Lb) {
    0 <= lb.accessCnt <= (if cfg.probeNum >= 0 then cfg.probeNum else 0)
  }

  // ---------------------------------------------------------------- report

  lemma RateMeans(part: nat, total: nat, limit: real)
    requires total > 0
    ensures part as real / total as real > limit <==> part as real > limit * total as real
  {
    var q := part as real / total as real;
    assert q * total as real == part as real;
    if q > limit {
      assert (q - limit) * total as real > 0.0;
    } else {
      assert (limit - q) * total as real >= 0.0;
    }
  }

  /** The error rule of an idle host after one more failed call, on the counts before it:
      the errors exceed their share of all calls, or the streak reaches its limit. */
  predicate ErrorRule(cfg: Config, h: Host) {
    || (h.verr + 1) as real > cfg.errRate * (h.vsucc + h.verr + 1) as real
    || h.continErr + 1 >= cfg.continErrLimit
  }

  /** The success rule of an overloaded host after one more successful call. */
  predicate SuccessRule(cfg: Config, h: Host) {
    || (h.vsucc + 1) as real > cfg.succRate * (h.vsucc + h.verr + 1) as real
    || h.continSucc + 1 >= cfg.continSuccLimit
  }

  /** The counts start anew: the state changes or the window of an idle host is over. */
  predicate Restarts(cfg: Config, h: Host, ok: bool, now: int) {
    if h.overload then (ok && SuccessRule(cfg, h)) || now - h.overloadTs >= cfg.overloadTimeout
    else (!ok && ErrorRule(cfg, h)) || now - h.idleTs >= cfg.idleTimeout
  }

  /** Everything a report does to its host, on the fields before it. An idle host turns
      overloaded if and only if the call failed and the error rule fires; an overloaded one
      turns idle if and only if the success rule fires or its window is over. The counts
      start anew at every change of state and at the end of an idle window, with the initial
      counts of the state, and otherwise count the call. */
  lemma ReportTransitions(cfg: Config, h: Host, ok: bool, now: int)
    ensures var r := ReportHost(cfg, h, ok, now);
            && (!h.overload ==> (r.overload <==> !ok && ErrorRule(cfg, h)))
            && (h.overload ==> (!r.overload <==> Restarts(cfg, h, ok, now)))
            && (Restarts(cfg, h, ok, now) ==>
                  r == if r.overload then Host(h.ip, h.port, 0, cfg.initErr, 0, 0, 0, 0, h.idleTs, now, true)
                       else Host(h.ip, h.port, cfg.initSucc, 0, 0, 0, 0, 0, now, h.overloadTs, false))
            && (!Restarts(cfg, h, ok, now) ==>
                  r == if ok then Host(h.ip, h.port, h.vsucc + 1, h.verr, h.rsucc + 1, h.rerr,
                                       h.continSucc + 1, 0, h.idleTs, h.overloadTs, h.overload)
                       else Host(h.ip, h.port, h.vsucc, h.verr + 1, h.rsucc, h.rerr + 1,
                                 0, h.continErr + 1, h.idleTs, h.overloadTs, h.overload))
  {
    var total := h.vsucc + h.verr + 1;
    RateMeans(h.verr + 1, total, cfg.errRate);
    RateMeans(h.vsucc + 1, total, cfg.succRate);
  }

  /** One report keeps the reported host within the limits of the state it ends in. */
  lemma ReportHostWithin(cfg: Config, h: Host, ok: bool, now: int)
    requires Sane(cfg) && HostWithin(cfg, h)
    ensures HostWithin(cfg, ReportHost(cfg, h, ok, now))
  {
    var c := Count(h, ok);
    var total := c.vsucc + c.verr;
    RateMeans(c.verr, total, cfg.errRate);
    RateMeans(c.vsucc, total, cfg.succRate);
    assert total == h.vsucc + h.verr + 1;
    assert cfg.errRate * total as real == cfg.errRate * (h.vsucc + h.verr) as real + cfg.errRate;
    assert cfg.succRate * total as real == cfg.succRate * (h.vsucc + h.verr) as real + cfg.succRate;
    assert cfg.errRate * cfg.initSucc as real >= 0.0;
    assert cfg.succRate * cfg.initErr as real >= 0.0;
  }

  /** After a report the host's time in its present window is below that state's timeout. */
  lemma ReportHostWindow(cfg: Config, h: Host, ok: bool, now: int)
    requires cfg.idleTimeout > 0 && cfg.overloadTimeout > 0
    ensures var r := ReportHost(cfg, h, ok, now);
            if r.overload then now - r.overloadTs < cfg.overloadTimeout
            else now - r.idleTs < cfg.idleTimeout
  {}

  lemma ReportKeepsAddress(cfg: Config, h: Host, ok: bool, now: int)
    ensures var r := ReportHost(cfg, h, ok, now);
            r.ip == h.ip && r.port == h.port
  {}

  /** A report about a host that was not freed keeps the queues sound and every other host
      where it was, and its own host stays on a queue. */
  lemma ReportFacts(cfg: Config, lb: Lb, k: Key, ok: bool, now: int)
    requires Queued(lb)
    ensures var r := Report(cfg, lb, k, ok, now);
            && Queued(r) && r.hosts.Keys == lb.hosts.Keys && r.accessCnt == lb.accessCnt
            && (!Lost(lb, k) ==> forall k' :: Lost(r, k') <==> Lost(lb, k'))
  {
    hide Pack, ReportHost, Remove;
    if k in lb.hosts {
      RemoveFacts(lb.idle, k);
      RemoveFacts(lb.over, k);
      ReportKeepsAddress(cfg, lb.hosts[k], ok, now);
    }
  }

  lemma ReportKeepsPartition(cfg: Config, lb: Lb, k: Key, ok: bool, now: int)
    requires Partition(lb)
    ensures Partition(Report(cfg, lb, k, ok, now))
    ensures Report(cfg, lb, k, ok, now).hosts.Keys == lb.hosts.Keys
  {
    hide Queued, Report, Lost;
    LostIsManaged(lb, k);
    ReportFacts(cfg, lb, k, ok, now);
  }

  /** A report about host k leaves the order of all other hosts as it was, and k itself goes
      to the tail of the other queue exactly when its state changes. */
  lemma ReportMoves(cfg: Config, lb: Lb, k: Key, ok: bool, now: int, others: set<Key>)
    requires k in lb.hosts && k !in others
    ensures var r := Report(cfg, lb, k, ok, now);
            && Filter(r.idle, others) == Filter(lb.idle, others)
            && Filter(r.over, others) == Filter(lb.over, others)
            && (r.hosts[k].overload == lb.hosts[k].overload ==> r.idle == lb.idle && r.over == lb.over)
            && (r.hosts[k].overload != lb.hosts[k].overload ==>
                  var q := if r.hosts[k].overload then r.over else r.idle;
                  q != [] && q[|q| - 1] == k)
            && (forall k' | k' in lb.hosts && k' != k :: r.hosts[k'] == lb.hosts[k'])
  {
    hide ReportHost, Filter, Remove;
    FilterAppend(lb.idle, [k], others);
    FilterAppend(lb.over, [k], others);
    FilterNone([k], others);
    RemoveUnderFilter(lb.idle, k, others);
    RemoveUnderFilter(lb.over, k, others);
  }

  // ---------------------------------------------------------------- choice

  /** A choice keeps the queues sound and loses nobody; it returns a queued host; it takes
      the front of an empty list if and only if the counter is at its limit and every
      host in the map is lost. */
  lemma ChooseKeepsQueued(cfg: Config, lb: Lb)
    requires Queued(lb)
    ensures var r := Choose(cfg, lb);
            && Queued(r.0) && r.0.hosts == lb.hosts && (forall k :: Lost(r.0, k) <==> Lost(lb, k))
            && (r.1.Picked? ==> r.1.k in lb.hosts && !Lost(lb, r.1.k))
            && (r.1.EmptyFront? <==> lb.accessCnt >= cfg.probeNum && AllLost(lb))
            && (InCycle(cfg, lb) ==> InCycle(cfg, r.0))
  {
    hide Queued, Lost, AllLost;
    QueuesEmptyIff(lb);
    RotateKeepsQueued(lb);
    FrontIsHost(lb);
    Relabel(lb, PickIdle(lb).0);
    Relabel(lb, PickOver(lb).0);
    Relabel(PickIdle(lb).0, Choose(cfg, lb).0);
    Relabel(PickOver(lb).0, Choose(cfg, lb).0);
    Relabel(lb, Choose(cfg, lb).0);
  }

  lemma ChooseKeepsPartition(cfg: Config, lb: Lb)
    requires Partition(lb)
    ensures var r := Choose(cfg, lb);
            && Partition(r.0) && r.0.hosts == lb.hosts
            && (lb.hosts.Keys != {} ==> !r.1.EmptyFront?)
            && (r.1.Picked? ==> r.1.k in lb.hosts)
            && (InCycle(cfg, lb) ==> InCycle(cfg, r.0))
  {
    hide Queued, Choose, Lost;
    ChooseKeepsQueued(cfg, lb);
  }

  lemma QueuesEmptyIff(lb: Lb)
    requires Queued(lb)
    ensures AllLost(lb) <==> lb.idle == [] && lb.over == []
  {
    hide NoDup, Pack;
    if lb.idle != [] { assert !Lost(lb, lb.idle[0]); }
    if lb.over != [] { assert !Lost(lb, lb.over[0]); }
  }

  lemma FrontIsHost(lb: Lb)
    requires Queued(lb)
    ensures lb.idle != [] ==> lb.idle[0] in lb.hosts && !Lost(lb, lb.idle[0])
    ensures lb.over != [] ==> lb.over[0] in lb.hosts && !Lost(lb, lb.over[0])
  {}

  /** Only the map and the queues matter. */
  lemma Relabel(lb: Lb, lb': Lb)
    ensures lb'.hosts == lb.hosts && lb'.idle == lb.idle && lb'.over == lb.over ==>
              (Queued(lb) <==> Queued(lb')) && forall k :: Lost(lb', k) <==> Lost(lb, k)
  {}

  lemma RotateKeepsQueued(lb: Lb)
    requires Queued(lb)
    ensures Queued(PickIdle(lb).0) && Queued(PickOver(lb).0)
    ensures forall k :: (Lost(PickIdle(lb).0, k) <==> Lost(lb, k)) && (Lost(PickOver(lb).0, k) <==> Lost(lb, k))
  {
    hide Pack;
    if lb.idle != [] { RotateFacts(lb.idle); }
    if lb.over != [] { RotateFacts(lb.over); }
  }

  lemma RotateFacts<T>(s: seq<T>)
    requires s != []
    ensures var r := s[1..] + [s[0]];
            (NoDup(s) ==> NoDup(r)) && forall x :: x in r <==> x in s
  {}

  // ---------------------------------------------------------------- update

  /** A host as it enters the map. */
  ghost predicate FreshHost(cfg: Config, hosts: map<Key, Host>, k: Key, now: int) {
    k in hosts && exists a :: KeyOf(a) == k && hosts[k] == NewHost(cfg, a, now)
  }

  /** `p` is `lb` with some new hosts at the tail of the idle queue. */
  ghost predicate Extends(cfg: Config, lb: Lb, p: Lb, now: int) {
    && lb.hosts.Keys <= p.hosts.Keys
    && (forall k | k in lb.hosts :: p.hosts[k] == lb.hosts[k])
    && (forall k | k in p.hosts && k !in lb.hosts :: FreshHost(cfg, p.hosts, k, now))
    && lb.idle <= p.idle && p.over == lb.over
    && (forall k | k in p.idle[|lb.idle|..] :: k in p.hosts && k !in lb.hosts)
    && p.accessCnt == lb.accessCnt
    && (forall k :: Lost(p, k) <==> Lost(lb, k))
  }

  lemma FreshKey(cfg: Config, a: Addr, now: int)
    ensures var h := NewHost(cfg, a, now); KeyOf(a) == Pack(h.ip, h.port) && !h.overload
  {
    var ip := a.ip % 0x1_0000_0000;
    PackIgnoresSign(ip, a.port);
    Congruent(ToInt32(ip), a.ip);
  }

  lemma AddOneKeepsQueued(cfg: Config, lb: Lb, a: Addr, now: int)
    requires Queued(lb)
    ensures Queued(AddOne(cfg, lb, a, now))
    ensures forall k :: Lost(AddOne(cfg, lb, a, now), k) <==> Lost(lb, k)
  {
    hide Pack, KeyOf, NewHost;
    FreshKey(cfg, a, now);
  }

  lemma AddOneExtends(cfg: Config, lb: Lb, p: Lb, a: Addr, now: int)
    requires Extends(cfg, lb, p, now) && Queued(p)
    ensures Extends(cfg, lb, AddOne(cfg, p, a, now), now)
  {
    hide Pack, KeyOf, NewHost, NoDup;
    var k0 := KeyOf(a);
    if k0 !in p.hosts {
      var p' := AddOne(cfg, p, a, now);
      assert FreshHost(cfg, p'.hosts, k0, now);
      assert p'.idle[|lb.idle|..] == p.idle[|lb.idle|..] + [k0];
      forall k | k in p.hosts && k !in lb.hosts ensures FreshHost(cfg, p'.hosts, k, now) {
        assert FreshHost(cfg, p.hosts, k, now);
        FreshHostKept(cfg, p.hosts, p'.hosts, k, now);
      }
    }
  }

  lemma FreshHostKept(cfg: Config, m: map<Key, Host>, m': map<Key, Host>, k: Key, now: int)
    requires FreshHost(cfg, m, k, now) && k in m' && m'[k] == m[k]
    ensures FreshHost(cfg, m', k, now)
  {}

  lemma RemoteSnoc(rsp: seq<Addr>)
    requires rsp != []
    ensures Remote(rsp) == Remote(rsp[..|rsp| - 1]) + {KeyOf(rsp[|rsp| - 1])}
  {
    var init := rsp[..|rsp| - 1];
    assert forall i | 0 <= i < |init| :: init[i] == rsp[i];
  }

  lemma {:induction false} AddNewFacts(cfg: Config, lb: Lb, rsp: seq<Addr>, now: int)
    requires Queued(lb)
    ensures var p := AddNew(cfg, lb, rsp, now);
            && Queued(p)
            && p.hosts.Keys == lb.hosts.Keys + Remote(rsp)
            && Extends(cfg, lb, p, now)
  {
    hide Queued, Extends, KeyOf, NewHost, Remote;
    if rsp == [] {
      NothingAdded(cfg, lb, now);
    } else {
      var init, a := rsp[..|rsp| - 1], rsp[|rsp| - 1];
      var p := AddNew(cfg, lb, init, now);
      AddNewFacts(cfg, lb, init, now);
      RemoteSnoc(rsp);
      AddOneKeepsQueued(cfg, p, a, now);
      AddOneExtends(cfg, lb, p, a, now);
    }
  }

  lemma NothingAdded(cfg: Config, lb: Lb, now: int)
    ensures Extends(cfg, lb, lb, now) && Remote([]) == {}
  {}

  lemma {:induction false} FilterAppend<T>(a: seq<T>, b: seq<T>, keep: set<T>)
    ensures Filter(a + b, keep) == Filter(a, keep) + Filter(b, keep)
  {
    if a == [] {
      assert a + b == b;
    } else {
      assert (a + b)[1..] == a[1..] + b;
      FilterAppend(a[1..], b, keep);
    }
  }

  lemma {:induction false} FilterNone<T>(s: seq<T>, keep: set<T>)
    requires forall x | x in s :: x !in keep
    ensures Filter(s, keep) == []
  {
    if s == [] {
    } else {
      FilterNone(s[1..], keep);
    }
  }

  lemma {:induction false} RemoveUnderFilter<T>(s: seq<T>, x: T, keep: set<T>)
    requires x !in keep
    ensures Filter(Remove(s, x), keep) == Filter(s, keep)
  {
    if s == [] {
    } else {
      RemoveUnderFilter(s[1..], x, keep);
      if s[0] != x { assert Remove(s, x)[1..] == Remove(s[1..], x); }
    }
  }

  /** The response lists x before it first lists y. */
  ghost predicate Precedes(rsp: seq<Addr>, x: Key, y: Key) {
    exists p :: 0 <= p < |rsp| && KeyOf(rsp[p]) == x && forall q | 0 <= q <= p :: KeyOf(rsp[q]) != y
  }

  ghost predicate InOrder(rsp: seq<Addr>, ks: seq<Key>) {
    forall i, j | 0 <= i < j < |ks| :: Precedes(rsp, ks[i], ks[j])
  }

  /** New hosts join the idle tail in the order in which the response first lists them. */
  lemma {:induction false} AddNewOrder(cfg: Config, lb: Lb, rsp: seq<Addr>, now: int)
    requires forall k | k in lb.idle :: k in lb.hosts
    ensures var p := AddNew(cfg, lb, rsp, now);
            && lb.idle <= p.idle && (forall k | k in p.idle :: k in p.hosts)
            && (forall k | k in Remote(rsp) :: k in p.hosts)
            && (forall k | k in p.idle[|lb.idle|..] :: k in Remote(rsp))
            && InOrder(rsp, p.idle[|lb.idle|..])
  {
    hide KeyOf, NewHost, Precedes;
    if rsp == [] {
    } else {
      var init, a := rsp[..|rsp| - 1], rsp[|rsp| - 1];
      var p0, p := AddNew(cfg, lb, init, now), AddNew(cfg, lb, rsp, now);
      AddNewOrder(cfg, lb, init, now);
      RemoteSnoc(rsp);
      var t0, t := p0.idle[|lb.idle|..], p.idle[|lb.idle|..];
      assert t == if KeyOf(a) in p0.hosts then t0 else t0 + [KeyOf(a)];
      forall i, j | 0 <= i < j < |t| ensures Precedes(rsp, t[i], t[j]) {
        assert t[i] in t0;
        if j < |t0| { PrecedesLonger(rsp, t[i], t[j]); } else { PrecedesNew(rsp, t[i]); }
      }
    }
  }

  lemma PrecedesLonger(rsp: seq<Addr>, x: Key, y: Key)
    requires rsp != [] && Precedes(rsp[..|rsp| - 1], x, y)
    ensures Precedes(rsp, x, y)
  {
    hide KeyOf;
    var init := rsp[..|rsp| - 1];
    var p :| 0 <= p < |init| && KeyOf(init[p]) == x && forall q | 0 <= q <= p :: KeyOf(init[q]) != y;
    assert forall q | 0 <= q <= p :: rsp[q] == init[q];
  }

  /** A key that only the last address of the response has comes after all others. */
  lemma PrecedesNew(rsp: seq<Addr>, x: Key)
    requires rsp != [] && x in Remote(rsp[..|rsp| - 1]) && KeyOf(rsp[|rsp| - 1]) !in Remote(rsp[..|rsp| - 1])
    ensures Precedes(rsp, x, KeyOf(rsp[|rsp| - 1]))
  {
    hide KeyOf;
    var init := rsp[..|rsp| - 1];
    var p :| 0 <= p < |init| && KeyOf(init[p]) == x;
    assert forall q | 0 <= q < |init| :: rsp[q] == init[q] && KeyOf(init[q]) in Remote(init);
  }

  /** `m` is `lb` after the response: the map grows by it and forgets nobody; hosts that
      stay keep their state, their queue and their order; new hosts stand at the tail of
      the idle queue with initial counters, in the order of the response; and the lost hosts are those lost before and
      those the response drops. */
  ghost predicate Replaced(cfg: Config, lb: Lb, m: Lb, rsp: seq<Addr>, now: int) {
    && m.hosts.Keys == lb.hosts.Keys + Remote(rsp)
    && (forall k | k in lb.hosts :: m.hosts[k] == lb.hosts[k])
    && (forall k | k in m.hosts && k !in lb.hosts :: FreshHost(cfg, m.hosts, k, now))
    && m.over == Filter(lb.over, Remote(rsp))
    && (exists added: seq<Key> ::
          && m.idle == Filter(lb.idle, Remote(rsp)) + added && InOrder(rsp, added)
          && (forall k :: k in added <==> k in Remote(rsp) && k !in lb.hosts))
    && (forall k :: Lost(m, k) <==> Lost(lb, k) || (k in lb.hosts && k !in Remote(rsp)))
    && m.accessCnt == lb.accessCnt && m.status == New && m.lastUpdate == now
  }

  lemma MergeFacts(cfg: Config, lb: Lb, rsp: seq<Addr>, now: int)
    requires Queued(lb)
    ensures var m := Merge(cfg, lb, rsp, now); Queued(m) && Replaced(cfg, lb, m, rsp, now)
  {
    hide Queued, AddNew, Remote, Filter, FreshHost, Extends, Lost;
    var p, m := AddNew(cfg, lb, rsp, now), Merge(cfg, lb, rsp, now);
    AddNewFacts(cfg, lb, rsp, now);
    ExtendsMeans(cfg, lb, p, now);
    FilterKeepsQueued(p, m, Remote(rsp));
    IdleManaged(lb);
    AddNewOrder(cfg, lb, rsp, now);
    var added := MergeTail(cfg, lb, p, rsp, now);
  }

  lemma IdleManaged(lb: Lb)
    requires Queued(lb)
    ensures forall k | k in lb.idle :: k in lb.hosts
  {}

  lemma MergeLost(cfg: Config, lb: Lb, rsp: seq<Addr>, now: int)
    requires Queued(lb)
    ensures var m := Merge(cfg, lb, rsp, now);
            && Queued(m) && m.hosts.Keys == lb.hosts.Keys + Remote(rsp)
            && (forall k :: Lost(m, k) <==> Lost(lb, k) || (k in lb.hosts && k !in Remote(rsp)))
  {
    hide Queued, Merge, Remote, Filter, FreshHost, Lost;
    MergeFacts(cfg, lb, rsp, now);
  }

  lemma MergeKeepsCycle(cfg: Config, lb: Lb, rsp: seq<Addr>, now: int)
    requires Queued(lb)
    ensures Merge(cfg, lb, rsp, now).accessCnt == lb.accessCnt
  {
    hide Queued, Merge, Remote, Filter, FreshHost, Lost;
    MergeFacts(cfg, lb, rsp, now);
  }

  lemma AddNewLost(cfg: Config, lb: Lb, rsp: seq<Addr>, now: int)
    requires Queued(lb)
    ensures var p := AddNew(cfg, lb, rsp, now);
            p.hosts.Keys == lb.hosts.Keys + Remote(rsp) && forall k :: Lost(p, k) <==> Lost(lb, k)
  {
    hide Queued, AddNew, Remote, FreshHost, Lost;
    AddNewFacts(cfg, lb, rsp, now);
  }

  lemma ExtendsMeans(cfg: Config, lb: Lb, p: Lb, now: int)
    requires Extends(cfg, lb, p, now)
    ensures forall k | k in lb.hosts :: k in p.hosts && p.hosts[k] == lb.hosts[k]
    ensures forall k | k in p.hosts && k !in lb.hosts :: FreshHost(cfg, p.hosts, k, now)
    ensures p.over == lb.over && p.accessCnt == lb.accessCnt
    ensures forall k :: Lost(p, k) <==> Lost(lb, k)
  {}

  lemma FilterKeepsQueued(p: Lb, m: Lb, keep: set<Key>)
    requires Queued(p) && m.hosts == p.hosts
    requires m.idle == Filter(p.idle, keep) && m.over == Filter(p.over, keep)
    ensures Queued(m)
    ensures forall k :: Lost(m, k) <==> Lost(p, k) || (k in p.hosts && k !in keep)
  {
    hide Pack, Filter;
    FilterFacts(p.idle, keep);
    FilterFacts(p.over, keep);
  }

  /** Filtering an extended idle queue keeps the old part's order, and what follows is new. */
  lemma MergeTail(cfg: Config, lb: Lb, p: Lb, rsp: seq<Addr>, now: int) returns (added: seq<Key>)
    requires Queued(lb) && Extends(cfg, lb, p, now) && p.hosts.Keys == lb.hosts.Keys + Remote(rsp)
    requires InOrder(rsp, p.idle[|lb.idle|..]) && forall k | k in p.idle[|lb.idle|..] :: k in Remote(rsp)
    ensures Filter(p.idle, Remote(rsp)) == Filter(lb.idle, Remote(rsp)) + added && InOrder(rsp, added)
    ensures forall k :: k in added <==> k in Remote(rsp) && k !in lb.hosts
  {
    hide Filter, FreshHost, NoDup, Pack, InOrder, Remote;
    var keep := Remote(rsp);
    var tail := p.idle[|lb.idle|..];
    assert p.idle == lb.idle + tail;
    FilterAppend(lb.idle, tail, keep);
    FilterAll(tail, keep);
    added := tail;
    forall k | k in keep && k !in lb.hosts ensures k in added {
      assert k in p.hosts && !Lost(p, k) && k !in lb.idle && k !in lb.over;
    }
  }

  /** With the entries of dropped hosts erased, `update` is set replacement: afterwards the
      map holds exactly the hosts of the response. */
  lemma UpdateReplaces(cfg: Config, lb: Lb, rsp: seq<Addr>, now: int)
    requires Queued(lb)
    ensures var m, u := Merge(cfg, lb, rsp, now), Update(cfg, lb, rsp, now);
            && Queued(u)
            && u.hosts.Keys == Remote(rsp)
            && (forall k | k in u.hosts :: u.hosts[k] == m.hosts[k])
            && u == m.(hosts := u.hosts)
            && (forall k :: Lost(u, k) <==> Lost(lb, k) && k in Remote(rsp))
            && (Partition(lb) ==> Partition(u))
  {
    hide Pack, Merge, Remote;
    MergeLost(cfg, lb, rsp, now);
    var m := Merge(cfg, lb, rsp, now);
    assert forall k | k in m.idle || k in m.over :: k in m.hosts && !Lost(m, k) && k in Remote(rsp);
  }

  /** As written, `update` leaves a partition behind if and only if the response drops
      none of the managed hosts; then it is the `update` that erases. */
  lemma MergePartitionIff(cfg: Config, lb: Lb, rsp: seq<Addr>, now: int)
    requires Partition(lb)
    ensures Partition(Merge(cfg, lb, rsp, now)) <==> lb.hosts.Keys <= Remote(rsp)
    ensures Merge(cfg, lb, rsp, now) == Update(cfg, lb, rsp, now) <==> lb.hosts.Keys <= Remote(rsp)
  {
    hide Queued, AddNew, Filter, Remote, FreshHost;
    MergeFacts(cfg, lb, rsp, now);
    var m, u := Merge(cfg, lb, rsp, now), Update(cfg, lb, rsp, now);
    if lb.hosts.Keys <= Remote(rsp) {
      assert m.hosts == u.hosts;
    } else {
      var k :| k in lb.hosts && k !in Remote(rsp);
      assert Lost(m, k) && k !in u.hosts;
    }
  }

  // ---------------------------------------------------------------- whole runs

  /** What happens to a balancer: an answer of the DNS service, a report about a host, a
      request for a host, which is passed on only when the map is not empty, and a request
      for all hosts, which reads every entry of the map. */
  datatype Event = DnsUpdate(rsp: seq<Addr>, now: int) | HostReport(k: Key, ok: bool, now: int)
                 | ChooseHost | ListHosts

  /** One event; `erase` selects the `update` that erases dropped entries. */
  function Step(cfg: Config, erase: bool, lb: Lb, e: Event): (m: Mem) {
    match e
    case DnsUpdate(rsp, now) =>
      if OmitsLost(lb, rsp) then UseAfterFree
      else Defined(if erase then Update(cfg, lb, rsp, now) else Merge(cfg, lb, rsp, now))
    case HostReport(k, ok, now) => if Lost(lb, k) then UseAfterFree else Defined(Report(cfg, lb, k, ok, now))
    case ChooseHost =>
      if lb.hosts == map[] then Defined(lb)
      else if Choose(cfg, lb).1.EmptyFront? then EmptyList
      else Defined(Choose(cfg, lb).0)
    case ListHosts => if AnyLost(lb) then UseAfterFree else Defined(lb)
  }

  /** A run goes on as long as its behaviour is defined. */
  function RunWith(cfg: Config, erase: bool, lb: Lb, es: seq<Event>): (m: Mem) {
    if es == [] then Defined(lb)
    else
      var m := RunWith(cfg, erase, lb, es[..|es| - 1]);
      if m.Defined? then Step(cfg, erase, m.lb, es[|es| - 1]) else m
  }

  /** A run of the code as it is written. */
  function Run(cfg: Config, lb: Lb, es: seq<Event>): (m: Mem) {
    RunWith(cfg, false, lb, es)
  }

  /** A report as written: it reads freed memory exactly when its host was freed; otherwise
      the queues stay sound and every host is on a queue or lost as before. */
  lemma ReportKeepsQueued(cfg: Config, lb: Lb, k: Key, ok: bool, now: int)
    requires Queued(lb)
    ensures var m := Step(cfg, false, lb, HostReport(k, ok, now));
            && (m == UseAfterFree <==> Lost(lb, k))
            && (m.Defined? ==> Queued(m.lb) && m.lb.hosts.Keys == lb.hosts.Keys && m.lb.accessCnt == lb.accessCnt)
            && (m.Defined? ==> forall k' :: Lost(m.lb, k') <==> Lost(lb, k'))
  {
    hide Queued, Report, Lost;
    ReportFacts(cfg, lb, k, ok, now);
  }

  /** `update` as it is written, on every state with sound queues: it frees a host a second
      time exactly when the response omits one that was freed before; otherwise it does
      what `Replaced` says. */
  lemma MergeReplaces(cfg: Config, lb: Lb, rsp: seq<Addr>, now: int)
    requires Queued(lb)
    ensures var m := Step(cfg, false, lb, DnsUpdate(rsp, now));
            && (m == UseAfterFree <==> exists k :: Lost(lb, k) && k !in Remote(rsp))
            && (m == UseAfterFree || (m.Defined? && Queued(m.lb) && Replaced(cfg, lb, m.lb, rsp, now)))
  {
    hide Queued, Merge, Remote, Replaced;
    MergeFacts(cfg, lb, rsp, now);
  }

  /** The response leaves only lost hosts in the map if and only if it lists only hosts
      that were lost before. */
  lemma MergeEmptiesIff(cfg: Config, lb: Lb, rsp: seq<Addr>, now: int)
    requires Queued(lb)
    ensures var m := Step(cfg, false, lb, DnsUpdate(rsp, now));
            m.Defined? ==> (AllLost(m.lb) <==> forall k | k in Remote(rsp) :: Lost(lb, k))
  {
    hide Queued, Merge, Remote, FreshHost, Filter;
    MergeFacts(cfg, lb, rsp, now);
    assert forall k | Lost(lb, k) :: k in lb.hosts;
  }

  lemma StepKeepsQueued(cfg: Config, erase: bool, lb: Lb, e: Event)
    requires Queued(lb) && InCycle(cfg, lb)
    ensures var m := Step(cfg, erase, lb, e); m.Defined? ==> Queued(m.lb) && InCycle(cfg, m.lb)
  {
    hide Queued, Report, Merge, Choose, Filter, FreshHost, OmitsLost, AnyLost;
    match e
    case DnsUpdate(rsp, now) =>
      MergeFacts(cfg, lb, rsp, now);
      UpdateReplaces(cfg, lb, rsp, now);
    case HostReport(k, ok, now) => ReportFacts(cfg, lb, k, ok, now);
    case ChooseHost => ChooseKeepsQueued(cfg, lb);
    case ListHosts =>
  }

  /** Every run keeps the queues sound and the probe counter in its range as long as it is
      defined, and the choice after it takes an empty front exactly when the counter is at
      its limit and every host in the map is lost. */
  lemma {:induction false} RunKeepsQueued(cfg: Config, erase: bool, lb: Lb, es: seq<Event>)
    requires Queued(lb) && InCycle(cfg, lb)
    ensures var m := RunWith(cfg, erase, lb, es);
            m.Defined? ==>
              && Queued(m.lb) && InCycle(cfg, m.lb)
              && (Choose(cfg, m.lb).1.EmptyFront? <==> m.lb.accessCnt >= cfg.probeNum && AllLost(m.lb))
  {
    hide Queued, InCycle, Step, Choose, AllLost;
    if es == [] {
    } else {
      var before := RunWith(cfg, erase, lb, es[..|es| - 1]);
      RunKeepsQueued(cfg, erase, lb, es[..|es| - 1]);
      if before.Defined? { StepKeepsQueued(cfg, erase, before.lb, es[|es| - 1]); }
    }
    var m := RunWith(cfg, erase, lb, es);
    if m.Defined? { ChooseKeepsQueued(cfg, m.lb); }
  }

  /** The event is a response that drops a host of the map. */
  ghost predicate Drops(lb: Lb, e: Event) {
    e.DnsUpdate? && !(lb.hosts.Keys <= Remote(e.rsp))
  }

  /** From a partition no event is undefined. */
  lemma StepPartitionIff(cfg: Config, lb: Lb, e: Event)
    requires Partition(lb)
    ensures Step(cfg, true, lb, e).Defined? && Partition(Step(cfg, true, lb, e).lb)
    ensures Step(cfg, false, lb, e).Defined? && (Partition(Step(cfg, false, lb, e).lb) <==> !Drops(lb, e))
    ensures !Drops(lb, e) ==> Step(cfg, true, lb, e) == Step(cfg, false, lb, e)
  {
    hide Queued, Report, Merge, Choose, Filter, FreshHost, Update, Lost;
    match e
    case DnsUpdate(rsp, now) =>
      MergePartitionIff(cfg, lb, rsp, now);
      UpdateReplaces(cfg, lb, rsp, now);
    case HostReport(k, ok, now) =>
      LostIsManaged(lb, k);
      ReportKeepsPartition(cfg, lb, k, ok, now);
    case ChooseHost => ChooseKeepsPartition(cfg, lb);
    case ListHosts =>
  }

  lemma LostIsManaged(lb: Lb, k: Key)
    ensures Lost(lb, k) ==> k in lb.hosts
  {}

  ghost predicate Partitioned(m: Mem) { m.Defined? && Partition(m.lb) }

  ghost predicate DropsHere(m: Mem, e: Event) { m.Defined? && Drops(m.lb, e) }

  /** As written, the hosts are partitioned throughout a run if and only if no response
      drops a managed host. */
  lemma RunPartitionIff(cfg: Config, lb: Lb, es: seq<Event>)
    requires Partition(lb)
    ensures (forall i | 0 <= i <= |es| :: Partitioned(Run(cfg, lb, es[..i])))
            <==> (forall i | 0 <= i < |es| :: !DropsHere(Run(cfg, lb, es[..i]), es[i]))
  {
    hide Partition, Step, Drops, RunWith;
    assert Run(cfg, lb, es[..0]) == Defined(lb) by { NoEvents(cfg, false, lb); }
    if forall i | 0 <= i < |es| :: !DropsHere(Run(cfg, lb, es[..i]), es[i]) {
      for i := 0 to |es|
        invariant forall j | 0 <= j <= i :: Partitioned(Run(cfg, lb, es[..j]))
      {
        assert Partitioned(Run(cfg, lb, es[..i]));
        OneMore(cfg, false, lb, es, i);
        StepPartitionIff(cfg, Run(cfg, lb, es[..i]).lb, es[i]);
      }
    } else if forall i | 0 <= i <= |es| :: Partitioned(Run(cfg, lb, es[..i])) {
      var i :| 0 <= i < |es| && DropsHere(Run(cfg, lb, es[..i]), es[i]);
      OneMore(cfg, false, lb, es, i);
      StepPartitionIff(cfg, Run(cfg, lb, es[..i]).lb, es[i]);
    }
  }

  lemma NoEvents(cfg: Config, erase: bool, lb: Lb)
    ensures RunWith(cfg, erase, lb, []) == Defined(lb)
  {}

  lemma OneMore(cfg: Config, erase: bool, lb: Lb, es: seq<Event>, i: nat)
    requires i < |es|
    ensures var m := RunWith(cfg, erase, lb, es[..i]);
            RunWith(cfg, erase, lb, es[..i + 1]) == if m.Defined? then Step(cfg, erase, m.lb, es[i]) else m
  {
    assert es[..i + 1][..i] == es[..i];
  }

  /** With dropped entries erased, every run is defined and keeps the partition; and as long
      as no response drops a managed host, this is the run of the code as written. */
  lemma {:induction false} RunKeepsPartition(cfg: Config, lb: Lb, es: seq<Event>)
    requires Partition(lb) && InCycle(cfg, lb)
    ensures var m := RunWith(cfg, true, lb, es);
            && m.Defined? && Partition(m.lb) && InCycle(cfg, m.lb)
            && ((forall i | 0 <= i < |es| :: !DropsHere(Run(cfg, lb, es[..i]), es[i])) ==> m == Run(cfg, lb, es))
  {
    hide Step, Drops, Queued;
    if es == [] {
    } else {
      var init, e := es[..|es| - 1], es[|es| - 1];
      assert forall i | 0 <= i < |init| :: init[..i] == es[..i] && init[i] == es[i];
      RunKeepsPartition(cfg, lb, init);
      var before := RunWith(cfg, true, lb, init).lb;
      StepPartitionIff(cfg, before, e);
      StepKeepsQueued(cfg, true, before, e);
    }
  }

  // ---------------------------------------------------------------- hosts over whole runs

  /** Each host after an event is a new one, as it was, or the outcome of a report. */
  ghost predicate Evolves(cfg: Config, before: map<Key, Host>, h: Host, k: Key) {
    || (exists a, now :: h == NewHost(cfg, a, now))
    || (k in before && h == before[k])
    || (k in before && exists ok, now :: h == ReportHost(cfg, before[k], ok, now))
  }

  lemma {:induction false} AddNewEvolves(cfg: Config, lb: Lb, rsp: seq<Addr>, now: int, k: Key)
    requires k in AddNew(cfg, lb, rsp, now).hosts
    ensures Evolves(cfg, lb.hosts, AddNew(cfg, lb, rsp, now).hosts[k], k)
  {
    hide NewHost, ReportHost, KeyOf;
    if rsp == [] {
    } else {
      var init := rsp[..|rsp| - 1];
      if k in AddNew(cfg, lb, init, now).hosts { AddNewEvolves(cfg, lb, init, now, k); }
    }
  }

  lemma StepEvolves(cfg: Config, erase: bool, lb: Lb, e: Event, k: Key)
    requires Step(cfg, erase, lb, e).Defined? && k in Step(cfg, erase, lb, e).lb.hosts
    ensures Evolves(cfg, lb.hosts, Step(cfg, erase, lb, e).lb.hosts[k], k)
  {
    hide NewHost, ReportHost, AddNew;
    if e.DnsUpdate? { AddNewEvolves(cfg, lb, e.rsp, e.now, k); }
  }

  lemma FreshWithin(cfg: Config, a: Addr, now: int)
    requires Sane(cfg)
    ensures HostWithin(cfg, NewHost(cfg, a, now))
  {
    assert cfg.errRate * cfg.initSucc as real >= 0.0;
  }

  lemma StepKeepsWithin(cfg: Config, erase: bool, lb: Lb, e: Event)
    requires Sane(cfg) && Within(cfg, lb) && Step(cfg, erase, lb, e).Defined?
    ensures Within(cfg, Step(cfg, erase, lb, e).lb)
  {
    hide HostWithin, NewHost, Sane, ReportHost, Step;
    var r := Step(cfg, erase, lb, e).lb;
    forall k | k in r.hosts ensures HostWithin(cfg, r.hosts[k]) {
      StepEvolves(cfg, erase, lb, e, k);
      if a, now :| r.hosts[k] == NewHost(cfg, a, now) {
        FreshWithin(cfg, a, now);
      } else if ok, now :| k in lb.hosts && r.hosts[k] == ReportHost(cfg, lb.hosts[k], ok, now) {
        ReportHostWithin(cfg, lb.hosts[k], ok, now);
      }
    }
  }

  /** Every run keeps every host within the limits of its state. */
  lemma {:induction false} RunKeepsWithin(cfg: Config, erase: bool, lb: Lb, es: seq<Event>)
    requires Sane(cfg) && Within(cfg, lb)
    ensures RunWith(cfg, erase, lb, es).Defined? ==> Within(cfg, RunWith(cfg, erase, lb, es).lb)
  {
    hide Within, Step, Sane;
    if es == [] {
    } else {
      RunKeepsWithin(cfg, erase, lb, es[..|es| - 1]);
      if RunWith(cfg, erase, lb, es).Defined? {
        StepKeepsWithin(cfg, erase, RunWith(cfg, erase, lb, es[..|es| - 1]).lb, es[|es| - 1]);
      }
    }
  }

  /** The virtual counts that decide are the initial ones of the present state plus the
      real ones that are reported, and a streak is part of the real count of its kind. */
  ghost predicate Tallied(cfg: Config, h: Host) {
    && h.vsucc == h.rsucc + (if h.overload then 0 else cfg.initSucc)
    && h.verr == h.rerr + (if h.overload then cfg.initErr else 0)
    && h.continSucc <= h.rsucc && h.continErr <= h.rerr
    && (h.continSucc == 0 || h.continErr == 0)
  }

  lemma ReportHostTallied(cfg: Config, h: Host, ok: bool, now: int)
    requires Tallied(cfg, h)
    ensures var r := ReportHost(cfg, h, ok, now);
            && Tallied(cfg, r)
            && (r.overload == h.overload && r.rsucc + r.rerr > 0 ==>
                  r.rsucc == h.rsucc + (if ok then 1 else 0) && r.rerr == h.rerr + (if ok then 0 else 1))
            && (r.overload != h.overload ==> r.rsucc + r.rerr == 0)
  {}

  lemma FreshTallied(cfg: Config, a: Addr, now: int)
    ensures Tallied(cfg, NewHost(cfg, a, now))
  {}

  ghost predicate AllTallied(cfg: Config, lb: Lb) {
    forall k | k in lb.hosts :: Tallied(cfg, lb.hosts[k])
  }

  lemma StepKeepsTally(cfg: Config, erase: bool, lb: Lb, e: Event)
    requires AllTallied(cfg, lb) && Step(cfg, erase, lb, e).Defined?
    ensures AllTallied(cfg, Step(cfg, erase, lb, e).lb)
  {
    hide Tallied, NewHost, ReportHost, Step;
    var r := Step(cfg, erase, lb, e).lb;
    forall k | k in r.hosts ensures Tallied(cfg, r.hosts[k]) {
      StepEvolves(cfg, erase, lb, e, k);
      if a, now :| r.hosts[k] == NewHost(cfg, a, now) {
        FreshTallied(cfg, a, now);
      } else if ok, now :| k in lb.hosts && r.hosts[k] == ReportHost(cfg, lb.hosts[k], ok, now) {
        ReportHostTallied(cfg, lb.hosts[k], ok, now);
      }
    }
  }

  /** Every run keeps the counts of every host in step. */
  lemma {:induction false} RunKeepsTally(cfg: Config, erase: bool, lb: Lb, es: seq<Event>)
    requires AllTallied(cfg, lb)
    ensures RunWith(cfg, erase, lb, es).Defined? ==> AllTallied(cfg, RunWith(cfg, erase, lb, es).lb)
  {
    hide AllTallied, Step;
    if es == [] {
    } else {
      RunKeepsTally(cfg, erase, lb, es[..|es| - 1]);
      if RunWith(cfg, erase, lb, es).Defined? {
        StepKeepsTally(cfg, erase, RunWith(cfg, erase, lb, es[..|es| - 1]).lb, es[|es| - 1]);
      }
    }
  }
}
