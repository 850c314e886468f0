/** The history of one host: its record is what the reports about it make of a new host, its
    counts are the calls since they last started anew, and when it turns overloaded. */
module LbHistory {
  import opened Words
  import opened LbSpec
  import opened LbRuns
  import opened LbLoss

  /** One reported call. */
  datatype Call = Call(ok: bool, now: int)

  /** A host after some reports. */
  function After(cfg: Config, h: Host, cs: seq<Call>): (h': Host) {
    if cs == [] then h
    else ReportHost(cfg, After(cfg, h, cs[..|cs| - 1]), cs[|cs| - 1].ok, cs[|cs| - 1].now)
  }

  function Succs(cs: seq<Call>): (n: nat) {
    if cs == [] then 0 else Succs(cs[..|cs| - 1]) + (if cs[|cs| - 1].ok then 1 else 0)
  }

  function Errs(cs: seq<Call>): (n: nat) {
    if cs == [] then 0 else Errs(cs[..|cs| - 1]) + (if cs[|cs| - 1].ok then 0 else 1)
  }

  /** The calls at the end that all failed, and those that all succeeded. */
  function ErrStreak(cs: seq<Call>): (n: nat) {
    if cs == [] || cs[|cs| - 1].ok then 0 else ErrStreak(cs[..|cs| - 1]) + 1
  }

  function SuccStreak(cs: seq<Call>): (n: nat) {
    if cs == [] || !cs[|cs| - 1].ok then 0 else SuccStreak(cs[..|cs| - 1]) + 1
  }

  // ---------------------------------------------------------------- the counts

  /** The i-th call makes the counts start anew. */
  predicate RestartsAt(cfg: Config, h: Host, cs: seq<Call>, i: nat)
    requires i < |cs|
  {
    Restarts(cfg, After(cfg, h, cs[..i]), cs[i].ok, cs[i].now)
  }

  /** The counts last started anew just before the j-th call. */
  ghost predicate LastRestart(cfg: Config, h: Host, cs: seq<Call>, j: nat) {
    && j <= |cs|
    && (j > 0 ==> RestartsAt(cfg, h, cs, j - 1))
    && forall i | j <= i < |cs| :: !RestartsAt(cfg, h, cs, i)
  }

  /** The counts of a host are these calls, on top of the initial counts of its state. */
  ghost predicate CountsAre(cfg: Config, h: Host, cs: seq<Call>) {
    && h.rsucc == Succs(cs) && h.rerr == Errs(cs)
    && h.continSucc == SuccStreak(cs) && h.continErr == ErrStreak(cs)
    && h.vsucc == Succs(cs) + (if h.overload then 0 else cfg.initSucc)
    && h.verr == Errs(cs) + (if h.overload then cfg.initErr else 0)
  }

  /** The counts of a new host after any reports are exactly the calls since they last
      started anew: at a change of state or at the end of an idle window. */
  lemma {:induction false} CountsSince(cfg: Config, a: Addr, t0: int, cs: seq<Call>) returns (j: nat)
    ensures j <= |cs| && LastRestart(cfg, NewHost(cfg, a, t0), cs, j)
    ensures CountsAre(cfg, After(cfg, NewHost(cfg, a, t0), cs), cs[j..])
  {
    hide ReportHost, Restarts, CountsAre, LastRestart;
    var h := NewHost(cfg, a, t0);
    if cs == [] {
      j := 0;
      NothingCounted(cfg, a, t0);
      NoRestartYet(cfg, h);
    } else {
      var n := |cs| - 1;
      var init, c := cs[..n], cs[n];
      j := CountsSince(cfg, a, t0, init);
      CountOneMore(cfg, After(cfg, h, init), init[j..], c);
      LastRestartSnoc(cfg, h, cs, j);
      if RestartsAt(cfg, h, cs, n) {
        j := |cs|;
        assert cs[j..] == [];
      } else {
        assert cs[j..] == init[j..] + [c];
      }
    }
  }

  lemma NoRestartYet(cfg: Config, h: Host)
    ensures LastRestart(cfg, h, [], 0)
  {}

  lemma LastRestartSnoc(cfg: Config, h: Host, cs: seq<Call>, j: nat)
    requires cs != [] && LastRestart(cfg, h, cs[..|cs| - 1], j)
    ensures LastRestart(cfg, h, cs, if RestartsAt(cfg, h, cs, |cs| - 1) then |cs| else j)
  {
    hide After, Restarts;
    var init := cs[..|cs| - 1];
    forall i | 0 <= i < |init| ensures RestartsAt(cfg, h, init, i) <==> RestartsAt(cfg, h, cs, i) {
      assert init[..i] == cs[..i];
    }
  }

  lemma NothingCounted(cfg: Config, a: Addr, t0: int)
    ensures CountsAre(cfg, NewHost(cfg, a, t0), [])
  {}

  /** One call more: counted on top of the others, or the first of none. */
  lemma CountOneMore(cfg: Config, h: Host, cs: seq<Call>, c: Call)
    requires CountsAre(cfg, h, cs)
    ensures CountsAre(cfg, ReportHost(cfg, h, c.ok, c.now), if Restarts(cfg, h, c.ok, c.now) then [] else cs + [c])
  {
    hide ReportHost, Restarts;
    ReportTransitions(cfg, h, c.ok, c.now);
    assert (cs + [c])[..|cs|] == cs;
  }

  // ---------------------------------------------------------------- the first overload

  /** Every call falls into the window that began at t0. */
  ghost predicate InWindow(cfg: Config, t0: int, cs: seq<Call>) {
    forall i | 0 <= i < |cs| :: cs[i].now - t0 < cfg.idleTimeout
  }

  /** The i-th call failed, and with it the errors exceed their share of all calls, the
      initial successes included, or the streak of errors reaches its limit. */
  predicate Trips(cfg: Config, cs: seq<Call>, i: nat)
    requires i < |cs|
  {
    && !cs[i].ok
    && (|| Errs(cs[..i + 1]) as real > cfg.errRate * (cfg.initSucc + i + 1) as real
        || ErrStreak(cs[..i + 1]) >= cfg.continErrLimit)
  }

  lemma {:induction false} SuccsAndErrs(cs: seq<Call>)
    ensures Succs(cs) + Errs(cs) == |cs|
  {
    if cs == [] {
    } else {
      SuccsAndErrs(cs[..|cs| - 1]);
    }
  }

  ghost predicate NoTrip(cfg: Config, cs: seq<Call>) { forall i | 0 <= i < |cs| :: !Trips(cfg, cs, i) }

  lemma NoTripSnoc(cfg: Config, cs: seq<Call>)
    requires cs != []
    ensures NoTrip(cfg, cs) <==> NoTrip(cfg, cs[..|cs| - 1]) && !Trips(cfg, cs, |cs| - 1)
  {
    hide Trips;
    var init := cs[..|cs| - 1];
    forall i | 0 <= i < |init| ensures Trips(cfg, init, i) <==> Trips(cfg, cs, i) {
      TripsPrefix(cfg, cs, |cs| - 1, i);
    }
  }

  lemma TripsPrefix(cfg: Config, cs: seq<Call>, n: nat, i: nat)
    requires i < n <= |cs|
    ensures Trips(cfg, cs[..n], i) <==> Trips(cfg, cs, i)
  {
    assert cs[..n][..i + 1] == cs[..i + 1];
  }

  /** Within its first window a new host is idle with exactly these counts as long as no call
      trips it. */
  lemma {:induction false} IdleWhileNoTrip(cfg: Config, a: Addr, t0: int, cs: seq<Call>)
    requires InWindow(cfg, t0, cs) && NoTrip(cfg, cs)
    ensures var h := After(cfg, NewHost(cfg, a, t0), cs);
            !h.overload && h.idleTs == t0 && CountsAre(cfg, h, cs)
  {
    hide ReportHost, Trips;
    if cs == [] {
    } else {
      var init, c := cs[..|cs| - 1], cs[|cs| - 1];
      NoTripSnoc(cfg, cs);
      IdleWhileNoTrip(cfg, a, t0, init);
      NextTrips(cfg, a, t0, cs);
      ReportTransitions(cfg, After(cfg, NewHost(cfg, a, t0), init), c.ok, c.now);
    }
  }

  /** The rule of the next report is `Trips`. */
  lemma NextTrips(cfg: Config, a: Addr, t0: int, cs: seq<Call>)
    requires cs != []
    requires var h := After(cfg, NewHost(cfg, a, t0), cs[..|cs| - 1]);
             !h.overload && CountsAre(cfg, h, cs[..|cs| - 1])
    ensures var h := After(cfg, NewHost(cfg, a, t0), cs[..|cs| - 1]);
            !cs[|cs| - 1].ok && ErrorRule(cfg, h) <==> Trips(cfg, cs, |cs| - 1)
  {
    hide ReportHost;
    var init := cs[..|cs| - 1];
    assert cs[..|cs| - 1 + 1] == cs;
    SuccsAndErrs(init);
  }

  /** At which report a new host first turns overloaded, within its first window: exactly at
      the first call that trips it. */
  lemma FirstOverload(cfg: Config, a: Addr, t0: int, cs: seq<Call>)
    requires cs != [] && InWindow(cfg, t0, cs) && NoTrip(cfg, cs[..|cs| - 1])
    ensures var h := NewHost(cfg, a, t0);
            && !After(cfg, h, cs[..|cs| - 1]).overload
            && (After(cfg, h, cs).overload <==> Trips(cfg, cs, |cs| - 1))
  {
    hide ReportHost, Trips, ErrorRule;
    var init, c := cs[..|cs| - 1], cs[|cs| - 1];
    assert forall i | 0 <= i < |init| :: init[i] == cs[i];
    IdleWhileNoTrip(cfg, a, t0, init);
    NextTrips(cfg, a, t0, cs);
    ReportTransitions(cfg, After(cfg, NewHost(cfg, a, t0), init), c.ok, c.now);
  }

  /** The settings a process starts with when its file names none. */
  const SHIPPED := Config(10, 180, 5, 0.1, 0.95, 10, 10, 15, 15, 15)

  function Failures(n: nat, now: int): (cs: seq<Call>) { seq(n, _ => Call(false, now)) }

  lemma {:induction false} FailuresCount(n: nat, now: int)
    ensures Errs(Failures(n, now)) == n && ErrStreak(Failures(n, now)) == n
  {
    if n == 0 {
    } else {
      assert Failures(n, now)[..n - 1] == Failures(n - 1, now);
      FailuresCount(n - 1, now);
    }
  }

  /** Under these settings a new host stays idle through nine failed calls in its first
      window and turns overloaded at the tenth. */
  lemma TenthFailure(a: Addr, t0: int, now: int, n: nat)
    requires now - t0 < 15 && n <= 10
    ensures After(SHIPPED, NewHost(SHIPPED, a, t0), Failures(n, now)).overload <==> n == 10
  {
    hide ReportHost, Errs, ErrStreak, After;
    var cs := Failures(n, now);
    forall i | 0 <= i < n ensures Trips(SHIPPED, cs, i) <==> i == 9 {
      assert cs[..i + 1] == Failures(i + 1, now);
      FailuresCount(i + 1, now);
    }
    if n == 0 {
      IdleWhileNoTrip(SHIPPED, a, t0, cs);
    } else {
      NoTripBefore(SHIPPED, cs);
      FirstOverload(SHIPPED, a, t0, cs);
    }
  }

  lemma NoTripBefore(cfg: Config, cs: seq<Call>)
    requires cs != [] && forall i | 0 <= i < |cs| - 1 :: !Trips(cfg, cs, i)
    ensures NoTrip(cfg, cs[..|cs| - 1])
  {
    hide Trips;
    var init := cs[..|cs| - 1];
    forall i | 0 <= i < |init| ensures !Trips(cfg, init, i) {
      TripsPrefix(cfg, cs, |cs| - 1, i);
    }
  }

  // ---------------------------------------------------------------- the record of a host in a run

  /** The reports of a run about one host. */
  function CallsOf(es: seq<Event>, k: Key): (cs: seq<Call>) {
    if es == [] then []
    else
      var e := es[|es| - 1];
      CallsOf(es[..|es| - 1], k) + (if e.HostReport? && e.k == k then [Call(e.ok, e.now)] else [])
  }

  /** The f-th event is the response that lists host k for the first time, at this address. */
  ghost predicate FirstListed(es: seq<Event>, k: Key, f: nat, a: Addr) {
    && f < |es| && es[f].DnsUpdate? && KeyOf(a) == k && a in es[f].rsp && !ListedIn(es[..f], k)
  }

  /** The record is what the reports since the first listing make of a new host. */
  ghost predicate RecordedSince(cfg: Config, es: seq<Event>, k: Key, h: Host, f: nat, a: Addr) {
    FirstListed(es, k, f, a) && h == After(cfg, NewHost(cfg, a, es[f].now), CallsOf(es[f + 1..], k))
  }

  ghost predicate Recorded(cfg: Config, es: seq<Event>, k: Key, h: Host) {
    exists f: nat, a :: RecordedSince(cfg, es, k, h, f, a)
  }

  /** Over every defined run from creation, as written: the record of a host is what the
      reports about it since its first listing make of a new host, in their order. Choices,
      other hosts and later responses do not touch it. */
  lemma {:induction false} RunRecords(cfg: Config, t0: int, es: seq<Event>, k: Key)
    ensures var m := Run(cfg, Empty(t0), es);
            m.Defined? && k in m.lb.hosts ==> Recorded(cfg, es, k, m.lb.hosts[k])
  {
    hide Step, RunWith, Recorded, ListedIn, Queued, InCycle;
    var lb := Empty(t0);
    if es == [] {
      NoEvents(cfg, false, lb);
    } else {
      var n := |es| - 1;
      var init, e := es[..n], es[n];
      RunRecords(cfg, t0, init, k);
      OneMore(cfg, false, lb, es, n);
      assert es[..n + 1] == es;
      var before, m := Run(cfg, lb, init), Run(cfg, lb, es);
      if m.Defined? && k in m.lb.hosts {
        EmptyQueued(cfg, t0);
        RunKeepsQueued(cfg, false, lb, init);
        StepRecord(cfg, before.lb, e, k);
        RunLostIff(cfg, t0, init, k);
        if k in before.lb.hosts {
          RecordGoesOn(cfg, es, k, before.lb.hosts[k], m.lb.hosts[k]);
        } else {
          var a :| a in e.rsp && KeyOf(a) == k && m.lb.hosts[k] == NewHost(cfg, a, e.now);
          RecordBegins(cfg, es, k, a);
        }
      }
    }
  }

  /** One event: only a report about the host changes its record. */
  lemma StepRecord(cfg: Config, lb: Lb, e: Event, k: Key)
    requires Queued(lb) && Step(cfg, false, lb, e).Defined? && k in Step(cfg, false, lb, e).lb.hosts
    ensures var h := Step(cfg, false, lb, e).lb.hosts[k];
            if k in lb.hosts then
              h == if e.HostReport? && e.k == k then ReportHost(cfg, lb.hosts[k], e.ok, e.now) else lb.hosts[k]
            else e.DnsUpdate? && exists a :: a in e.rsp && KeyOf(a) == k && h == NewHost(cfg, a, e.now)
  {
    hide Queued, ReportHost, Filter, NewHost, KeyOf, AddNew, OmitsLost;
    match e
    case DnsUpdate(rsp, now) => AddNewRecord(cfg, lb, rsp, now, k);
    case HostReport(k', ok, now) =>
    case ChooseHost => ChooseKeepsQueued(cfg, lb);
    case ListHosts =>
  }

  lemma {:induction false} AddNewRecord(cfg: Config, lb: Lb, rsp: seq<Addr>, now: int, k: Key)
    ensures var hosts := AddNew(cfg, lb, rsp, now).hosts;
            && (k in lb.hosts ==> k in hosts && hosts[k] == lb.hosts[k])
            && (k in hosts && k !in lb.hosts ==>
                  exists a :: a in rsp && KeyOf(a) == k && hosts[k] == NewHost(cfg, a, now))
  {
    hide NewHost, KeyOf;
    if rsp == [] {
    } else {
      var init, last := rsp[..|rsp| - 1], rsp[|rsp| - 1];
      assert last in rsp && forall a | a in init :: a in rsp;
      AddNewRecord(cfg, lb, init, now, k);
    }
  }

  lemma CallsSnoc(es: seq<Event>, e: Event, k: Key)
    ensures CallsOf(es + [e], k) == CallsOf(es, k) + (if e.HostReport? && e.k == k then [Call(e.ok, e.now)] else [])
  {
    assert (es + [e])[..|es|] == es;
  }

  lemma AfterSnoc(cfg: Config, h: Host, cs: seq<Call>, c: Call)
    ensures After(cfg, h, cs + [c]) == ReportHost(cfg, After(cfg, h, cs), c.ok, c.now)
  {
    assert (cs + [c])[..|cs|] == cs;
  }

  /** A record goes on with one more event. */
  lemma RecordGoesOn(cfg: Config, es: seq<Event>, k: Key, before: Host, h: Host)
    requires es != [] && Recorded(cfg, es[..|es| - 1], k, before)
    requires var e := es[|es| - 1];
             h == if e.HostReport? && e.k == k then ReportHost(cfg, before, e.ok, e.now) else before
    ensures Recorded(cfg, es, k, h)
  {
    hide ReportHost, ListedIn, KeyOf, NewHost, After, CallsOf;
    var n := |es| - 1;
    var init, e := es[..n], es[n];
    var f: nat, a :| RecordedSince(cfg, init, k, before, f, a);
    assert init[..f] == es[..f] && es[f + 1..] == init[f + 1..] + [e];
    CallsSnoc(init[f + 1..], e, k);
    var cs := CallsOf(init[f + 1..], k);
    if e.HostReport? && e.k == k { AfterSnoc(cfg, NewHost(cfg, a, es[f].now), cs, Call(e.ok, e.now)); }
    assert cs + [] == cs;
    assert RecordedSince(cfg, es, k, h, f, a);
  }

  /** A record begins with the last event. */
  lemma RecordBegins(cfg: Config, es: seq<Event>, k: Key, a: Addr)
    requires es != [] && FirstListed(es, k, |es| - 1, a)
    ensures Recorded(cfg, es, k, NewHost(cfg, a, es[|es| - 1].now))
  {
    hide NewHost, ListedIn, KeyOf;
    var f: nat := |es| - 1;
    assert es[f + 1..] == [];
    assert RecordedSince(cfg, es, k, NewHost(cfg, a, es[f].now), f, a);
  }

  /** What a report to the report service says of a host, over every defined run: the
      successful and the failed calls reported about it since its counts last started
      anew, and its present state. */
  lemma RunCounts(cfg: Config, t0: int, es: seq<Event>, k: Key) returns (f: nat, a: Addr, j: nat)
    requires Run(cfg, Empty(t0), es).Defined? && k in Run(cfg, Empty(t0), es).lb.hosts
    ensures FirstListed(es, k, f, a)
    ensures var h, cs := NewHost(cfg, a, es[f].now), CallsOf(es[f + 1..], k);
            j <= |cs| && LastRestart(cfg, h, cs, j) && CountsAre(cfg, Run(cfg, Empty(t0), es).lb.hosts[k], cs[j..])
  {
    hide RunWith, After, CountsAre, LastRestart, CallsOf, NewHost, FirstListed;
    RunRecords(cfg, t0, es, k);
    var h := Run(cfg, Empty(t0), es).lb.hosts[k];
    f, a :| RecordedSince(cfg, es, k, h, f, a);
    FirstIsUpdate(es, k, f, a);
    j := CountsSince(cfg, a, es[f].now, CallsOf(es[f + 1..], k));
  }

  lemma FirstIsUpdate(es: seq<Event>, k: Key, f: nat, a: Addr)
    requires FirstListed(es, k, f, a)
    ensures f < |es| && es[f].DnsUpdate?
  {}
}
