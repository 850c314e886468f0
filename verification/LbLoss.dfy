/** What becomes of hosts that a response drops, over runs of the balancer as it is
    written: which runs stay defined, and when a choice finds nothing to choose from. And
    which settings keep the limits of the hosts over such runs. */
module LbLoss {
  import opened Words
  import opened LbSpec
  import opened LbRuns

  /** A balancer before its first response. */
  function Empty(now: int): (lb: Lb) { Lb(map[], [], [], 0, New, now) }

  lemma EmptyQueued(cfg: Config, t0: int)
    ensures Partition(Empty(t0)) && Queued(Empty(t0)) && InCycle(cfg, Empty(t0))
  {}

  // ---------------------------------------------------------------- one event

  /** The event is a response that drops host k. */
  predicate Loses(lb: Lb, e: Event, k: Key) {
    e.DnsUpdate? && k in lb.hosts && k !in Remote(e.rsp)
  }

  /** One event as written, if it is defined: a host is lost afterwards exactly when it was
      lost before or the event drops it. Nothing brings it back. */
  lemma StepLostIff(cfg: Config, lb: Lb, e: Event, k: Key)
    requires Queued(lb) && Step(cfg, false, lb, e).Defined?
    ensures Lost(Step(cfg, false, lb, e).lb, k) <==> Lost(lb, k) || Loses(lb, e, k)
  {
    hide Queued, Report, Merge, Choose, Filter, FreshHost, Remote, Lost, OmitsLost, AnyLost;
    match e
    case DnsUpdate(rsp, now) => MergeFacts(cfg, lb, rsp, now);
    case HostReport(k', ok, now) => ReportFacts(cfg, lb, k', ok, now);
    case ChooseHost => ChooseKeepsQueued(cfg, lb);
    case ListHosts =>
  }

  lemma StepKeys(cfg: Config, lb: Lb, e: Event)
    requires Queued(lb) && Step(cfg, false, lb, e).Defined?
    ensures Step(cfg, false, lb, e).lb.hosts.Keys == lb.hosts.Keys + (if e.DnsUpdate? then Remote(e.rsp) else {})
  {
    hide Queued, Report, Merge, Choose, Filter, FreshHost, Remote, Lost, OmitsLost, AnyLost;
    match e
    case DnsUpdate(rsp, now) => MergeFacts(cfg, lb, rsp, now);
    case HostReport(k', ok, now) => ReportFacts(cfg, lb, k', ok, now);
    case ChooseHost => ChooseKeepsQueued(cfg, lb);
    case ListHosts =>
  }

  // ---------------------------------------------------------------- the history of a run

  /** Some response of the run lists the host. */
  ghost predicate ListedIn(es: seq<Event>, k: Key) {
    exists i :: 0 <= i < |es| && es[i].DnsUpdate? && k in Remote(es[i].rsp)
  }

  /** The j-th event is a response that omits a host listed before: `update` frees it. */
  ghost predicate DroppedAt(es: seq<Event>, k: Key, j: nat) {
    j < |es| && es[j].DnsUpdate? && k !in Remote(es[j].rsp) && ListedIn(es[..j], k)
  }

  ghost predicate DroppedIn(es: seq<Event>, k: Key) { exists j: nat :: DroppedAt(es, k, j) }

  /** The event reads or frees a host that an earlier response of the run freed: a response
      that still omits it, a report about it, or a request for all hosts. */
  ghost predicate TouchesFreed(es: seq<Event>, e: Event) {
    match e
    case DnsUpdate(rsp, _) => exists k :: DroppedIn(es, k) && k !in Remote(rsp)
    case HostReport(k, _, _) => DroppedIn(es, k)
    case ChooseHost => false
    case ListHosts => exists k :: DroppedIn(es, k)
  }

  /** Some host was listed, and every host that was listed has been dropped. */
  ghost predicate NothingLeft(es: seq<Event>) {
    (exists k :: ListedIn(es, k)) && forall k | ListedIn(es, k) :: DroppedIn(es, k)
  }

  lemma ListedSnoc(es: seq<Event>, e: Event, k: Key)
    ensures ListedIn(es + [e], k) <==> ListedIn(es, k) || (e.DnsUpdate? && k in Remote(e.rsp))
  {
    hide Remote;
    var all := es + [e];
    assert all[|es|] == e;
    if ListedIn(es, k) {
      var i :| 0 <= i < |es| && es[i].DnsUpdate? && k in Remote(es[i].rsp);
      assert all[i] == es[i];
    }
  }

  lemma DroppedSnoc(es: seq<Event>, e: Event, k: Key)
    ensures DroppedIn(es + [e], k) <==>
            DroppedIn(es, k) || (e.DnsUpdate? && k !in Remote(e.rsp) && ListedIn(es, k))
  {
    hide Remote, ListedIn;
    var all := es + [e];
    assert all[..|es|] == es;
    assert forall j | 0 <= j < |es| :: all[..j] == es[..j] && all[j] == es[j];
    if DroppedIn(es, k) {
      var j: nat :| DroppedAt(es, k, j);
      assert DroppedAt(all, k, j);
    }
    if DroppedIn(all, k) {
      var j: nat :| DroppedAt(all, k, j);
      if j < |es| { assert DroppedAt(es, k, j); }
    }
    if e.DnsUpdate? && k !in Remote(e.rsp) && ListedIn(es, k) { assert DroppedAt(all, k, |es|); }
  }

  /** As long as a run from creation is defined, the map holds every host any response
      listed, and the lost hosts are exactly those some response dropped. Listing one again
      does not bring it back. */
  lemma {:induction false} RunLostIff(cfg: Config, t0: int, es: seq<Event>, k: Key)
    ensures var m := Run(cfg, Empty(t0), es);
            m.Defined? ==>
              (k in m.lb.hosts <==> ListedIn(es, k)) && (Lost(m.lb, k) <==> DroppedIn(es, k))
  {
    hide Step, ListedIn, DroppedIn, Remote, Queued, InCycle, Lost;
    var lb := Empty(t0);
    if es == [] {
      NothingYet(cfg, t0, k);
    } else {
      var init, e := es[..|es| - 1], es[|es| - 1];
      assert es == init + [e];
      var before := Run(cfg, lb, init);
      RunLostIff(cfg, t0, init, k);
      EmptyQueued(cfg, t0);
      RunKeepsQueued(cfg, false, lb, init);
      ListedSnoc(init, e, k);
      DroppedSnoc(init, e, k);
      if Run(cfg, lb, es).Defined? {
        StepLostIff(cfg, before.lb, e, k);
        StepKeys(cfg, before.lb, e);
      }
    }
  }

  lemma NothingYet(cfg: Config, t0: int, k: Key)
    ensures !ListedIn([], k) && !DroppedIn([], k) && !Lost(Empty(t0), k)
  {}

  /** What the next event does after a defined run, read off the history: it uses freed
      memory exactly when it touches a host that an earlier response dropped, and takes the
      front of an empty list exactly when it is a choice, the counter is at its limit and
      nothing is left. */
  lemma NextFaultIff(cfg: Config, t0: int, es: seq<Event>, e: Event)
    requires Run(cfg, Empty(t0), es).Defined?
    ensures var lb := Run(cfg, Empty(t0), es).lb;
            var m := Step(cfg, false, lb, e);
            && (m == UseAfterFree <==> TouchesFreed(es, e))
            && (m == EmptyList <==> e.ChooseHost? && lb.accessCnt >= cfg.probeNum && NothingLeft(es))
  {
    hide RunWith, Choose, Queued, InCycle, ListedIn, DroppedIn, Remote, Merge, Report;
    var lb := Run(cfg, Empty(t0), es).lb;
    forall k ensures (k in lb.hosts <==> ListedIn(es, k)) && (Lost(lb, k) <==> DroppedIn(es, k)) {
      RunLostIff(cfg, t0, es, k);
    }
    EmptyQueued(cfg, t0);
    RunKeepsQueued(cfg, false, Empty(t0), es);
    match e
    case DnsUpdate(rsp, now) =>
    case HostReport(k, ok, now) =>
    case ChooseHost => SomeHost(lb);
    case ListHosts =>
  }

  lemma SomeHost(lb: Lb)
    ensures lb.hosts != map[] <==> exists k :: k in lb.hosts
  {
    if lb.hosts != map[] { assert lb.hosts.Keys != {}; }
  }

  /** The i-th event of a run is the one that makes it undefined, if none before did. */
  ghost predicate Spoils(cfg: Config, t0: int, es: seq<Event>, i: nat)
    requires i < |es|
  {
    || TouchesFreed(es[..i], es[i])
    || (es[i].ChooseHost? && NothingLeft(es[..i])
        && Run(cfg, Empty(t0), es[..i]).Defined? && Run(cfg, Empty(t0), es[..i]).lb.accessCnt >= cfg.probeNum)
  }

  /** A run of the code as written is defined if and only if no event touches a host that
      an earlier response dropped, and no choice comes with the counter at its limit when
      every host ever listed has been dropped. */
  lemma {:induction false} RunDefinedIff(cfg: Config, t0: int, es: seq<Event>)
    ensures Run(cfg, Empty(t0), es).Defined? <==> forall i | 0 <= i < |es| :: !Spoils(cfg, t0, es, i)
  {
    hide Step, TouchesFreed, NothingLeft;
    if es == [] {
    } else {
      var n := |es| - 1;
      var init, e := es[..n], es[n];
      assert forall i | 0 <= i < n :: init[..i] == es[..i] && init[i] == es[i];
      RunDefinedIff(cfg, t0, init);
      assert (forall i | 0 <= i < n :: !Spoils(cfg, t0, es, i)) <==> (forall i | 0 <= i < n :: !Spoils(cfg, t0, init, i)) by {
        forall i | 0 <= i < n ensures Spoils(cfg, t0, es, i) <==> Spoils(cfg, t0, init, i) {}
      }
      if Run(cfg, Empty(t0), init).Defined? { NextFaultIff(cfg, t0, init, e); }
      assert Run(cfg, Empty(t0), es).Defined? <==> Run(cfg, Empty(t0), init).Defined? && !Spoils(cfg, t0, es, n);
    }
  }

  /** The choice after a defined run takes the front of an empty list if and only if the
      counter is at its limit and every host ever listed has been dropped. */
  lemma EmptyFrontIff(cfg: Config, t0: int, es: seq<Event>)
    requires Run(cfg, Empty(t0), es).Defined?
    ensures var lb := Run(cfg, Empty(t0), es).lb;
            Choose(cfg, lb).1.EmptyFront? <==>
              lb.accessCnt >= cfg.probeNum && forall k | ListedIn(es, k) :: DroppedIn(es, k)
  {
    hide RunWith, Choose, ListedIn, DroppedIn, Lost, Queued, InCycle;
    var lb := Run(cfg, Empty(t0), es).lb;
    EmptyQueued(cfg, t0);
    RunKeepsQueued(cfg, false, Empty(t0), es);
    forall k ensures (k in lb.hosts <==> ListedIn(es, k)) && (Lost(lb, k) <==> DroppedIn(es, k)) {
      RunLostIff(cfg, t0, es, k);
    }
  }

  // ---------------------------------------------------------------- runs that get there

  lemma RemoteOne(a: Addr)
    ensures Remote([a]) == {KeyOf(a)}
  {
    assert [a][0] == a;
  }

  lemma {:induction false} RunAppend(cfg: Config, lb: Lb, a: seq<Event>, b: seq<Event>)
    requires Run(cfg, lb, a).Defined?
    ensures Run(cfg, lb, a + b) == Run(cfg, Run(cfg, lb, a).lb, b)
  {
    hide Step;
    if b == [] {
      assert a + b == a;
    } else {
      assert (a + b)[..|a + b| - 1] == a + b[..|b| - 1];
      RunAppend(cfg, lb, a, b[..|b| - 1]);
    }
  }

  lemma RunOne(cfg: Config, lb: Lb, e: Event)
    ensures Run(cfg, lb, [e]) == Step(cfg, false, lb, e)
  {
    OneMore(cfg, false, lb, [e], 0);
    assert [e][..1] == [e] && [e][..0] == [];
  }

  lemma RunSnoc(cfg: Config, lb: Lb, es: seq<Event>, e: Event)
    requires Run(cfg, lb, es).Defined?
    ensures Run(cfg, lb, es + [e]) == Step(cfg, false, Run(cfg, lb, es).lb, e)
  {
    RunAppend(cfg, lb, es, [e]);
    RunOne(cfg, Run(cfg, lb, es).lb, e);
  }

  /** A host and then another one in its place. */
  function Swapped(a: Addr, b: Addr, now: int): (es: seq<Event>) {
    [DnsUpdate([a], now), DnsUpdate([b], now)]
  }

  /** After the two responses the first host is freed and still in the map. */
  lemma SwappedRun(cfg: Config, t0: int, a: Addr, b: Addr, now: int)
    requires KeyOf(a) != KeyOf(b)
    ensures var m := Run(cfg, Empty(t0), Swapped(a, b, now));
            && m.Defined? && Queued(m.lb) && m.lb.hosts.Keys == {KeyOf(a), KeyOf(b)} && m.lb.accessCnt == 0
            && (forall k :: Lost(m.lb, k) <==> k == KeyOf(a))
  {
    hide Queued, Merge, Filter, FreshHost, KeyOf, RunWith, Remote;
    var lb := Empty(t0);
    EmptyQueued(cfg, t0);
    RemoteOne(a);
    RemoteOne(b);
    MergeFacts(cfg, lb, [a], now);
    var m1 := Merge(cfg, lb, [a], now);
    MergeFacts(cfg, m1, [b], now);
    RunOne(cfg, lb, DnsUpdate([a], now));
    RunSnoc(cfg, lb, [DnsUpdate([a], now)], DnsUpdate([b], now));
    assert Swapped(a, b, now) == [DnsUpdate([a], now)] + [DnsUpdate([b], now)];
  }

  /** The ordinary case: one host replaces another, and the module is pulled again. Any
      further response without the first host, the same one included, frees it a second
      time; a report about it and a request for all hosts read it after it was freed. */
  lemma SecondFree(cfg: Config, t0: int, a: Addr, b: Addr, rsp: seq<Addr>, ok: bool, now: int)
    requires KeyOf(a) != KeyOf(b) && KeyOf(a) !in Remote(rsp)
    ensures var es := Swapped(a, b, now);
            && Run(cfg, Empty(t0), es).Defined?
            && Run(cfg, Empty(t0), es + [DnsUpdate(rsp, now)]) == UseAfterFree
            && Run(cfg, Empty(t0), es + [DnsUpdate([b], now)]) == UseAfterFree
            && Run(cfg, Empty(t0), es + [HostReport(KeyOf(a), ok, now)]) == UseAfterFree
            && Run(cfg, Empty(t0), es + [ListHosts]) == UseAfterFree
  {
    hide Queued, KeyOf, RunWith, Swapped, Remote, Lost;
    SwappedRun(cfg, t0, a, b, now);
    RemoteOne(b);
    var es := Swapped(a, b, now);
    assert Lost(Run(cfg, Empty(t0), es).lb, KeyOf(a));
    RunSnoc(cfg, Empty(t0), es, DnsUpdate(rsp, now));
    RunSnoc(cfg, Empty(t0), es, DnsUpdate([b], now));
    RunSnoc(cfg, Empty(t0), es, HostReport(KeyOf(a), ok, now));
    RunSnoc(cfg, Empty(t0), es, ListHosts);
  }

  /** Probing choices on a balancer with nothing on its queues. */
  function Choices(n: nat): (es: seq<Event>) { seq(n, _ => ChooseHost) }

  lemma {:induction false} CountsUp(cfg: Config, lb: Lb, n: nat)
    requires lb.hosts != map[] && lb.idle == [] && lb.over == []
    requires n == 0 || lb.accessCnt + n <= cfg.probeNum
    ensures Run(cfg, lb, Choices(n)) == Defined(lb.(accessCnt := lb.accessCnt + n))
  {
    if n == 0 {
    } else {
      assert Choices(n)[..n - 1] == Choices(n - 1);
      CountsUp(cfg, lb, n - 1);
    }
  }

  /** For all settings and any two hosts there is a run that touches no freed host and ends
      with the front of an empty list: a response listing one, a response listing the
      other, a response listing the first again, which drops the second, then `probe_num`
      choices and one more. */
  lemma EmptyFrontReached(cfg: Config, t0: int, a: Addr, b: Addr, now: int)
    requires KeyOf(a) != KeyOf(b)
    ensures var n := if cfg.probeNum >= 0 then cfg.probeNum else 0;
            var es := Swapped(a, b, now) + [DnsUpdate([a], now)] + Choices(n);
            && Run(cfg, Empty(t0), es).Defined? && Run(cfg, Empty(t0), es).lb.hosts.Keys == {KeyOf(a), KeyOf(b)}
            && Run(cfg, Empty(t0), es + [ChooseHost]) == EmptyList
  {
    hide Queued, RunWith, Swapped, Choices, KeyOf, Merge, Remote, Replaced;
    var n := if cfg.probeNum >= 0 then cfg.probeNum else 0;
    var es := Swapped(a, b, now) + [DnsUpdate([a], now)];
    BackAgain(cfg, t0, a, b, now);
    var lb := Run(cfg, Empty(t0), es).lb;
    QueuesEmptyIff(lb);
    CountsUp(cfg, lb, n);
    RunAppend(cfg, Empty(t0), es, Choices(n));
    RunSnoc(cfg, Empty(t0), es + Choices(n), ChooseHost);
    assert lb.hosts != map[] by { assert KeyOf(a) in lb.hosts; }
  }

  lemma BackAgain(cfg: Config, t0: int, a: Addr, b: Addr, now: int)
    requires KeyOf(a) != KeyOf(b)
    ensures var m := Run(cfg, Empty(t0), Swapped(a, b, now) + [DnsUpdate([a], now)]);
            && m.Defined? && Queued(m.lb) && AllLost(m.lb)
            && m.lb.hosts.Keys == {KeyOf(a), KeyOf(b)} && m.lb.accessCnt == 0
  {
    hide Queued, RunWith, Swapped, KeyOf, Merge, Remote, FreshHost, Filter;
    var es := Swapped(a, b, now);
    SwappedRun(cfg, t0, a, b, now);
    RemoteOne(a);
    RunSnoc(cfg, Empty(t0), es, DnsUpdate([a], now));
    MergeFacts(cfg, Run(cfg, Empty(t0), es).lb, [a], now);
  }

  // ---------------------------------------------------------------- which settings keep the limits

  function Reports(k: Key, ok: bool, now: int, n: nat): (es: seq<Event>) {
    seq(n, _ => HostReport(k, ok, now))
  }

  /** A host after n equal reports. */
  function Reported(cfg: Config, h: Host, ok: bool, now: int, n: nat): (h': Host)
    decreases n
  {
    if n == 0 then h else Reported(cfg, ReportHost(cfg, h, ok, now), ok, now, n - 1)
  }

  /** The host is on a queue of a sound balancer. */
  ghost predicate OnQueue(lb: Lb, k: Key) { Queued(lb) && k in lb.hosts && !Lost(lb, k) }

  lemma {:induction false} RunReports(cfg: Config, lb: Lb, k: Key, ok: bool, now: int, n: nat)
    requires OnQueue(lb, k)
    ensures var m := Run(cfg, lb, Reports(k, ok, now, n));
            m.Defined? && OnQueue(m.lb, k) && m.lb.hosts[k] == Reported(cfg, lb.hosts[k], ok, now, n)
    decreases n
  {
    hide RunWith, ReportHost, Queued, Lost;
    if n == 0 {
      NoEvents(cfg, false, lb);
    } else {
      var e := HostReport(k, ok, now);
      assert Reports(k, ok, now, n) == [e] + Reports(k, ok, now, n - 1);
      ReportFacts(cfg, lb, k, ok, now);
      RunOne(cfg, lb, e);
      RunAppend(cfg, lb, [e], Reports(k, ok, now, n - 1));
      RunReports(cfg, Run(cfg, lb, [e]).lb, k, ok, now, n - 1);
    }
  }

  /** Errors within one window turn an idle host overloaded, at the streak limit or before. */
  lemma {:induction false} ErrorsTurnOver(cfg: Config, h: Host, now: int) returns (n: nat, last: Host)
    requires !h.overload && h.continErr < cfg.continErrLimit && now - h.idleTs < cfg.idleTimeout
    ensures Reported(cfg, h, false, now, n) == SetOverload(cfg, last, now)
    decreases cfg.continErrLimit - h.continErr
  {
    var next := Count(h, false);
    if TurnsOverload(cfg, next) {
      n, last := 1, next;
      assert Reported(cfg, SetOverload(cfg, next, now), false, now, 0) == SetOverload(cfg, next, now);
    } else {
      n, last := ErrorsTurnOver(cfg, next, now);
      n := n + 1;
    }
  }

  /** What the first response makes of its only host. */
  lemma FirstHost(cfg: Config, t0: int, a: Addr, now: int)
    ensures var m := Run(cfg, Empty(t0), [DnsUpdate([a], now)]);
            m.Defined? && OnQueue(m.lb, KeyOf(a)) && m.lb.hosts[KeyOf(a)] == NewHost(cfg, a, now)
  {
    hide KeyOf, Filter, Queued, RunWith, FreshHost, Remote;
    RunOne(cfg, Empty(t0), DnsUpdate([a], now));
    EmptyQueued(cfg, t0);
    RemoteOne(a);
    MergeFacts(cfg, Empty(t0), [a], now);
    assert [a][..0] == [] && AddNew(cfg, Empty(t0), [], now) == Empty(t0);
    assert AddNew(cfg, Empty(t0), [a], now) == AddOne(cfg, Empty(t0), a, now);
  }

  /** The run from creation is defined and leaves a host outside the limits of its state. */
  ghost predicate Strays(cfg: Config, t0: int, es: seq<Event>) {
    Run(cfg, Empty(t0), es).Defined? && !Within(cfg, Run(cfg, Empty(t0), es).lb)
  }

  /** A host that goes outside its limits under two rounds of reports. */
  lemma StraysAfter(cfg: Config, t0: int, a: Addr, ok: bool, t1: int, n: nat, t2: int, m: nat)
    requires !HostWithin(cfg, Reported(cfg, Reported(cfg, NewHost(cfg, a, 0), ok, t1, n), false, t2, m))
    ensures exists es :: Strays(cfg, t0, es)
  {
    hide HostWithin, RunWith, Reported, NewHost, KeyOf, Queued, Lost;
    var k, lb := KeyOf(a), Empty(t0);
    var first := [DnsUpdate([a], 0)];
    var r1, r2 := Reports(k, ok, t1, n), Reports(k, false, t2, m);
    FirstHost(cfg, t0, a, 0);
    RunAppend(cfg, lb, first, r1);
    RunReports(cfg, Run(cfg, lb, first).lb, k, ok, t1, n);
    RunAppend(cfg, lb, first + r1, r2);
    RunReports(cfg, Run(cfg, lb, first + r1).lb, k, false, t2, m);
    assert Strays(cfg, t0, first + r1 + r2);
  }

  lemma InsaneStrays(cfg: Config, t0: int)
    requires !Sane(cfg)
    ensures exists es :: Strays(cfg, t0, es)
  {
    hide Within, Strays, RunWith;
    var a := Addr(0, 0);
    var h, t1 := NewHost(cfg, a, 0), cfg.idleTimeout - 1;
    if cfg.continErrLimit == 0 {
      StraysAfter(cfg, t0, a, false, 0, 0, 0, 0);
    } else if cfg.errRate < 0.0 {
      OneReport(cfg, h, true, t1);
      if cfg.initSucc > 0 {
        assert cfg.errRate * cfg.initSucc as real < 0.0;
        StraysAfter(cfg, t0, a, false, 0, 0, 0, 0);
      } else {
        StraysAfter(cfg, t0, a, true, t1, 1, 0, 0);
      }
    } else {
      var n, last := ErrorsTurnOver(cfg, h, t1);
      var over := SetOverload(cfg, last, t1);
      if cfg.continSuccLimit == 0 {
        StraysAfter(cfg, t0, a, false, t1, n, 0, 0);
      } else if cfg.initErr > 0 {
        assert cfg.succRate * cfg.initErr as real < 0.0;
        StraysAfter(cfg, t0, a, false, t1, n, 0, 0);
      } else {
        var t2 := t1 + cfg.overloadTimeout - 1;
        OneReport(cfg, over, false, t2);
        StraysAfter(cfg, t0, a, false, t1, n, t2, 1);
      }
    }
  }

  lemma OneReport(cfg: Config, h: Host, ok: bool, now: int)
    ensures Reported(cfg, h, ok, now, 1) == ReportHost(cfg, h, ok, now)
  {
    assert Reported(cfg, ReportHost(cfg, h, ok, now), ok, now, 0) == ReportHost(cfg, h, ok, now);
  }

  /** Every defined run from creation keeps every host within the limits of its state if
      and only if the settings are sane. */
  lemma WithinIff(cfg: Config, t0: int)
    ensures Sane(cfg) <==> forall es :: !Strays(cfg, t0, es)
  {
    hide RunWith, Sane;
    if Sane(cfg) {
      forall es ensures !Strays(cfg, t0, es) { RunKeepsWithin(cfg, false, Empty(t0), es); }
    } else {
      InsaneStrays(cfg, t0);
    }
  }
}
