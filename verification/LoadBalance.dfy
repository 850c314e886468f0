/** The load balancer with its host objects: each operation does to the abstract state
    what the specification says. */
module LoadBalance {
  import opened Words
  import S = LbSpec
  import opened LbRuns
  import LbLoss
  import H = LbHistory

  class HostInfo {
    const ip: Uint32
    const port: Int32
    var vsucc: nat
    var verr: nat
    var rsucc: nat
    var rerr: nat
    var continSucc: nat
    var continErr: nat
    var idleTs: int
    var overloadTs: int
    var overload: bool

    function Key(): (k: S.Key) { Pack(ip, port) }

    function Val(): (h: S.Host)
      reads this
    {
      S.Host(ip, port, vsucc, verr, rsucc, rerr, continSucc, continErr, idleTs, overloadTs, overload)
    }

    constructor (cfg: S.Config, a: S.Addr, now: int)
      ensures Val() == S.NewHost(cfg, a, now) && Key() == S.KeyOf(a)
    {
      ip, port := a.ip % 0x1_0000_0000, a.port;
      vsucc, verr, rsucc, rerr, continSucc, continErr := cfg.initSucc, 0, 0, 0, 0, 0;
      idleTs, overloadTs, overload := now, 0, false;
      FreshKey(cfg, a, now);
    }

    method SetIdle(cfg: S.Config, now: int)
      modifies this
      ensures Val() == S.SetIdle(cfg, old(Val()), now)
    {
      vsucc, verr, rsucc, rerr, continSucc, continErr := cfg.initSucc, 0, 0, 0, 0, 0;
      overload, idleTs := false, now;
    }

    method SetOverload(cfg: S.Config, now: int)
      modifies this
      ensures Val() == S.SetOverload(cfg, old(Val()), now)
    {
      vsucc, verr, rsucc, rerr, continSucc, continErr := 0, cfg.initErr, 0, 0, 0, 0;
      overload, overloadTs := true, now;
    }

    method Count(ok: bool)
      modifies this
      ensures Val() == S.Count(old(Val()), ok)
    {
      if ok {
        vsucc, rsucc, continSucc, continErr := vsucc + 1, rsucc + 1, continSucc + 1, 0;
      } else {
        verr, rerr, continErr, continSucc := verr + 1, rerr + 1, continErr + 1, 0;
      }
    }
  }

  /** The judgement of `report` about one host: the counts, then the rate and streak
      rules, then the time windows. */
  method Judge(hi: HostInfo, cfg: S.Config, ok: bool, now: int)
    modifies hi
    ensures hi.Val() == S.ReportHost(cfg, old(hi.Val()), ok, now)
  {
    hi.Count(ok);
    if !hi.overload && !ok {
      if S.RateAbove(hi.Val(), hi.verr, cfg.errRate) || hi.continErr >= cfg.continErrLimit {
        hi.SetOverload(cfg, now);
        return;
      }
    } else if hi.overload && ok {
      if S.RateAbove(hi.Val(), hi.vsucc, cfg.succRate) || hi.continSucc >= cfg.continSuccLimit {
        hi.SetIdle(cfg, now);
        return;
      }
    }
    if !hi.overload {
      if now - hi.idleTs >= cfg.idleTimeout { hi.SetIdle(cfg, now); }
    } else {
      if now - hi.overloadTs >= cfg.overloadTimeout { hi.SetIdle(cfg, now); }
    }
  }

  /** One line of the report to the report service. */
  datatype CallResult = CallResult(ip: Uint32, port: Int32, succ: nat, err: nat, overload: bool)

  function Result(h: S.Host, overload: bool): (r: CallResult) {
    CallResult(h.ip, h.port, h.rsucc, h.rerr, overload)
  }

  /** The lines of a report: the idle queue, then the overload queue. */
  function Results(lb: S.Lb): (rs: seq<CallResult>)
    requires forall k | k in lb.idle || k in lb.over :: k in lb.hosts
    ensures |rs| == |lb.idle| + |lb.over|
  {
    seq(|lb.idle|, i requires 0 <= i < |lb.idle| =>
      assert lb.idle[i] in lb.idle; Result(lb.hosts[lb.idle[i]], false)) +
    seq(|lb.over|, i requires 0 <= i < |lb.over| =>
      assert lb.over[i] in lb.over; Result(lb.hosts[lb.over[i]], true))
  }

  /** The line tells of host k its address, its successful and failed calls and its state. */
  ghost predicate LineOf(r: CallResult, lb: S.Lb, k: S.Key) {
    && k in lb.hosts && Pack(r.ip, r.port) == k
    && r.succ == lb.hosts[k].rsucc && r.err == lb.hosts[k].rerr && r.overload == lb.hosts[k].overload
  }

  /** The queued hosts, idle ones first. */
  function Order(lb: S.Lb): (ks: seq<S.Key>) { lb.idle + lb.over }

  /** A report has one line for each queued host, in the order of the queues, and none for
      any other. */
  lemma ResultsCover(lb: S.Lb)
    requires Queued(lb)
    ensures |Results(lb)| == |Order(lb)|
    ensures forall i | 0 <= i < |Order(lb)| :: LineOf(Results(lb)[i], lb, Order(lb)[i])
    ensures S.NoDup(Order(lb)) && forall k | k in lb.hosts :: k in Order(lb) <==> !S.Lost(lb, k)
  {
    hide Pack;
    forall i | 0 <= i < |Order(lb)| ensures LineOf(Results(lb)[i], lb, Order(lb)[i]) {
      var k := Order(lb)[i];
      assert if i < |lb.idle| then k == lb.idle[i] && k in lb.idle else k == lb.over[i - |lb.idle|] && k in lb.over;
    }
    forall i, j | 0 <= i < j < |Order(lb)| ensures Order(lb)[i] != Order(lb)[j] {
      if i < |lb.idle| <= j { assert Order(lb)[i] in lb.idle && Order(lb)[j] in lb.over; }
    }
  }

  /** What is committed over whole runs: the line of a host counts the successful and the
      failed calls that were reported about it since its counts last started anew. */
  lemma CommitCounts(cfg: S.Config, t0: int, es: seq<Event>, i: nat) returns (f: nat, a: S.Addr, j: nat)
    requires var m := Run(cfg, LbLoss.Empty(t0), es); m.Defined? && Queued(m.lb) && i < |Order(m.lb)|
    ensures var lb := Run(cfg, LbLoss.Empty(t0), es).lb;
            var r, k := Results(lb)[i], Order(lb)[i];
            && Pack(r.ip, r.port) == k && H.FirstListed(es, k, f, a)
            && var h, cs := S.NewHost(cfg, a, es[f].now), H.CallsOf(es[f + 1..], k);
            && j <= |cs| && H.LastRestart(cfg, h, cs, j)
            && r.succ == H.Succs(cs[j..]) && r.err == H.Errs(cs[j..])
  {
    hide RunWith, Results, Order, H.LastRestart, H.CallsOf, S.NewHost, H.FirstListed, Queued, H.Succs, H.Errs;
    var lb := Run(cfg, LbLoss.Empty(t0), es).lb;
    QueuesManaged(lb);
    ResultsCover(lb);
    assert LineOf(Results(lb)[i], lb, Order(lb)[i]);
    f, a, j := H.RunCounts(cfg, t0, es, Order(lb)[i]);
  }

  function Keys(l: seq<HostInfo>): (ks: seq<S.Key>)
    ensures |ks| == |l|
  {
    seq(|l|, i requires 0 <= i < |l| => l[i].Key())
  }

  /** Every host on a list is the one the map holds under its key. */
  ghost predicate Listed(m: map<S.Key, HostInfo>, l: seq<HostInfo>) {
    forall h | h in l :: h.Key() in m && m[h.Key()] == h
  }

  lemma {:induction false} KeysOfRemove(m: map<S.Key, HostInfo>, l: seq<HostInfo>, h: HostInfo)
    requires Listed(m, l) && h.Key() in m && m[h.Key()] == h
    ensures Keys(S.Remove(l, h)) == S.Remove(Keys(l), h.Key()) && Listed(m, S.Remove(l, h))
  {
    hide Pack;
    if l == [] {
    } else {
      KeysOfRemove(m, l[1..], h);
      assert Keys(l)[1..] == Keys(l[1..]);
      assert l[0] in l;
      var rest := S.Remove(l[1..], h);
      assert Keys([l[0]] + rest) == [l[0].Key()] + Keys(rest);
    }
  }

  lemma ListedSame(m: map<S.Key, HostInfo>, l: seq<HostInfo>, l': seq<HostInfo>)
    requires Listed(m, l) && forall h | h in l' :: h in l
    ensures Listed(m, l')
  {}

  lemma ListedMore(m: map<S.Key, HostInfo>, m': map<S.Key, HostInfo>, l: seq<HostInfo>)
    requires Listed(m, l) && forall k | k in m :: k in m' && m'[k] == m[k]
    ensures Listed(m', l)
  {}

  lemma KeysPush(m: map<S.Key, HostInfo>, l: seq<HostInfo>, h: HostInfo)
    requires Listed(m, l) && h.Key() in m && m[h.Key()] == h
    ensures Keys(l + [h]) == Keys(l) + [h.Key()] && Listed(m, l + [h])
  {}

  class Balancer {
    const cfg: S.Config
    var hostMap: map<S.Key, HostInfo>
    var idleList: seq<HostInfo>
    var overloadList: seq<HostInfo>
    var accessCnt: int
    var status: S.Status
    var lastUpdate: int
    /** The host objects that were deleted. */
    var freed: set<HostInfo>

    ghost function Hosts(): (m: map<S.Key, S.Host>)
      reads this, hostMap.Values
    {
      map k | k in hostMap :: hostMap[k].Val()
    }

    ghost function State(): (lb: S.Lb)
      reads this, hostMap.Values
    {
      S.Lb(Hosts(), Keys(idleList), Keys(overloadList), accessCnt, status, lastUpdate)
    }

    /** The map points to a deleted host exactly where the host is lost. */
    ghost predicate FreedAreLost()
      reads this, hostMap.Values
    {
      forall k | k in hostMap :: hostMap[k] in freed <==> S.Lost(State(), k)
    }

    /** The lists and the map hold the same objects, the queues are sound, and the deleted
        hosts are the lost ones; so no list holds a deleted host. */
    ghost predicate Valid()
      reads this, hostMap.Values
    {
      Listed(hostMap, idleList) && Listed(hostMap, overloadList) && Queued(State()) && FreedAreLost()
    }

    constructor (cfg: S.Config, now: int)
      ensures Valid() && this.cfg == cfg
      ensures State() == S.Lb(map[], [], [], 0, S.New, now) && hostMap == map[]
    {
      this.cfg := cfg;
      hostMap, idleList, overloadList := map[], [], [];
      accessCnt, status, lastUpdate, freed := 0, S.New, now, {};
    }

    /** `choice_one_host`: it picks a queued host, reports overload, or takes the front of
        an empty list, which happens exactly when the counter is at its limit and no host
        of the map is on a queue. */
    method Choose() returns (r: S.Choice)
      requires Valid()
      modifies this`idleList, this`overloadList, this`accessCnt
      ensures Valid() && (State(), r) == S.Choose(cfg, old(State()))
      ensures r.Picked? ==> r.k in hostMap && hostMap[r.k] !in freed
      ensures r.EmptyFront? <==> old(accessCnt) >= cfg.probeNum && AllLost(old(State()))
    {
      hide Queued, Pack, Keys, Listed, Hosts, S.Lost, AllLost;
      ChooseKeepsQueued(cfg, State());
      HostKeys();
      r := Pick();
      HostsKept();
      ListedSame(hostMap, old(idleList), idleList);
      ListedSame(hostMap, old(overloadList), overloadList);
    }

    method Pick() returns (r: S.Choice)
      modifies this`idleList, this`overloadList, this`accessCnt
      ensures forall h :: h in idleList <==> h in old(idleList)
      ensures forall h :: h in overloadList <==> h in old(overloadList)
      ensures var before := S.Lb(map[], Keys(old(idleList)), Keys(old(overloadList)), old(accessCnt), status, lastUpdate);
              var after := S.Lb(map[], Keys(idleList), Keys(overloadList), accessCnt, status, lastUpdate);
              S.Choose(cfg, before) == (after, r)
    {
      hide Keys, Pack;
      if idleList == [] {
        if accessCnt >= cfg.probeNum {
          accessCnt := 0;
          overloadList, r := TakeFront(overloadList);
        } else {
          accessCnt := accessCnt + 1;
          return S.AllOverloaded;
        }
      } else if overloadList == [] {
        idleList, r := TakeFront(idleList);
      } else if accessCnt >= cfg.probeNum {
        accessCnt := 0;
        overloadList, r := TakeFront(overloadList);
      } else {
        accessCnt := accessCnt + 1;
        idleList, r := TakeFront(idleList);
      }
    }

    lemma HostKeys()
      ensures Hosts().Keys == hostMap.Keys == State().hosts.Keys
      ensures |Keys(idleList)| == |idleList| && |Keys(overloadList)| == |overloadList|
    {}

    /** Changing the lists or the counters does not touch the hosts. */
    twostate lemma HostsKept()
      requires hostMap == old(hostMap) && forall h | h in hostMap.Values :: unchanged(h)
      ensures Hosts() == old(Hosts())
    {
      forall k | k in hostMap ensures hostMap[k].Val() == old(hostMap[k].Val()) {
        assert hostMap[k] in hostMap.Values;
      }
    }

    /** `get_host_from_list`: the front host goes to the back. */
    static method TakeFront(l: seq<HostInfo>) returns (l': seq<HostInfo>, r: S.Choice)
      ensures l == [] ==> l' == [] && r == S.EmptyFront
      ensures l != [] ==> Keys(l') == Keys(l)[1..] + [Keys(l)[0]] && r == S.Picked(Keys(l)[0])
      ensures forall h :: h in l' <==> h in l
    {
      if l == [] { return [], S.EmptyFront; }
      l' := l[1..] + [l[0]];
      r := S.Picked(l[0].Key());
      assert l == [l[0]] + l[1..];
    }

    lemma OwnKeys()
      requires Valid()
      ensures forall k | k in hostMap :: hostMap[k].Key() == k
    {
      hide Pack;
      assert forall k | k in hostMap :: k in Hosts();
    }

    /** `pull`: a request for this module goes out, and the status says so. */
    method Pull()
      requires Valid()
      modifies this`status
      ensures Valid() && State() == old(State()).(status := S.Pulling)
    {
      hide Queued, Pack, Keys, Listed, Hosts;
      Relabel(State(), State().(status := S.Pulling));
      status := S.Pulling;
      HostsKept();
    }

    /** What a reconnection does to one balancer: it may pull again. */
    method Reset()
      requires Valid()
      modifies this`status
      ensures Valid() && State() == old(State()).(status := S.New)
    {
      hide Queued, Pack, Keys, Listed, Hosts;
      Relabel(State(), State().(status := S.New));
      status := S.New;
      HostsKept();
    }

    /** `report`: a report about a host that is not managed changes nothing; one about a
        host that was deleted reads freed memory, and nothing is promised after that. */
    method Report(ip: Int32, port: Int32, retcode: int, now: int) returns (fault: bool)
      requires Valid()
      modifies this`idleList, this`overloadList, hostMap.Values
      ensures fault <==> S.Lost(old(State()), Pack(ip, port))
      ensures !fault ==> Valid() && State() == S.Report(cfg, old(State()), Pack(ip, port), retcode == 0, now)
    {
      hide Queued, Pack, S.ReportHost, S.Remove, Keys, Listed, Hosts, S.Lost;
      var key := Pack(ip, port);
      ReportFacts(cfg, State(), key, retcode == 0, now);
      HostKeys();
      fault := false;
      LostIsManaged(State(), key);
      if key !in hostMap { return; }
      OwnKeys();
      var hi := hostMap[key];
      if hi in freed { return true; }
      var was := hi.overload;
      assert hi in hostMap.Values;
      Judge(hi, cfg, retcode == 0, now);
      OneChanged(key);
      label judged:
      KeysOfRemove(hostMap, idleList, hi);
      KeysOfRemove(hostMap, overloadList, hi);
      KeysPush(hostMap, idleList, hi);
      KeysPush(hostMap, overloadList, hi);
      if hi.overload && !was {
        idleList, overloadList := S.Remove(idleList, hi), overloadList + [hi];
      } else if !hi.overload && was {
        overloadList, idleList := S.Remove(overloadList, hi), idleList + [hi];
      }
      HostsKept@judged();
    }

    /** One host changed: so does its entry, and no other. */
    twostate lemma OneChanged(key: S.Key)
      requires hostMap == old(hostMap) && key in hostMap
      requires forall k | k in hostMap :: hostMap[k].Key() == k
      requires forall h | h in hostMap.Values && h != hostMap[key] :: unchanged(h)
      ensures Hosts() == old(Hosts())[key := hostMap[key].Val()]
      ensures key in old(Hosts()) && old(Hosts())[key] == old(hostMap[key].Val())
    {
      hide Pack;
      forall k | k in hostMap && k != key ensures hostMap[k].Val() == old(hostMap[k].Val()) {
        assert hostMap[k] in hostMap.Values && hostMap[k] != hostMap[key];
      }
    }

    /** `get_all_hosts`: every entry of the map, which reads freed memory exactly when some
        host was deleted. */
    method GetAllHosts() returns (hosts: set<S.Key>, fault: bool)
      requires Valid()
      ensures fault <==> S.AnyLost(State())
      ensures !fault ==> hosts == hostMap.Keys
    {
      hide Queued, Listed, Keys, Hosts, S.Lost, Pack;
      HostKeys();
      OwnKeys();
      hosts, fault := {}, false;
      var todo := hostMap.Keys;
      while todo != {}
        invariant todo <= hostMap.Keys && hosts == hostMap.Keys - todo
        invariant forall k | k in hosts :: hostMap[k] !in freed
        decreases todo
      {
        var k :| k in todo;
        if hostMap[k] in freed { return hosts, true; }
        hosts, todo := hosts + {k}, todo - {k};
      }
    }

    /** `commit`: nothing for a balancer without hosts; otherwise one result per queued
        host, idle hosts first, each with its real counts and its queue. */
    method Commit() returns (sent: bool, results: seq<CallResult>)
      requires Valid()
      ensures sent <==> hostMap.Keys != {}
      ensures results == Results(State()) && |results| == |Order(State())|
      ensures forall i | 0 <= i < |results| :: LineOf(results[i], State(), Order(State())[i])
      ensures S.NoDup(Order(State())) && forall k | k in hostMap :: k in Order(State()) <==> !S.Lost(State(), k)
    {
      hide Pack, Queued, Keys, Listed, S.Lost, LineOf, Order;
      HostKeys();
      ResultsCover(State());
      var n := |idleList|;
      results := [];
      if hostMap.Keys == {} {
        NothingListed();
        return false, [];
      }
      for i := 0 to n
        invariant |results| == i && forall j | 0 <= j < i :: results[j] == Result(idleList[j].Val(), false)
      {
        results := results + [Result(idleList[i].Val(), false)];
      }
      for i := 0 to |overloadList|
        invariant |results| == n + i
        invariant forall j | 0 <= j < n :: results[j] == Result(idleList[j].Val(), false)
        invariant forall j | 0 <= j < i :: results[n + j] == Result(overloadList[j].Val(), true)
      {
        results := results + [Result(overloadList[i].Val(), true)];
      }
      ListedResults(results);
      sent := true;
    }

    lemma NothingListed()
      requires Valid() && hostMap.Keys == {}
      ensures Results(State()) == []
    {
      hide Queued, Keys, Listed;
      HostKeys();
      QueuesEmptyIff(State());
    }

    /** Results read from the objects are the results of the abstract state. */
    lemma ListedResults(results: seq<CallResult>)
      requires Valid() && |results| == |idleList| + |overloadList|
      requires forall i | 0 <= i < |idleList| :: results[i] == Result(idleList[i].Val(), false)
      requires forall i | 0 <= i < |overloadList| :: results[|idleList| + i] == Result(overloadList[i].Val(), true)
      ensures results == Results(State())
    {
      hide Pack, Queued;
      var s, n := State(), |idleList|;
      forall i | 0 <= i < |results| ensures results[i] == Results(s)[i] {
        if i < n {
          assert idleList[i] in idleList;
        } else {
          assert overloadList[i - n] in overloadList;
          assert results[n + (i - n)] == Result(overloadList[i - n].Val(), true);
        }
      }
    }

    /** The first loop of `update`: unknown hosts of the response are added. */
    method AddUnknown(rsp: seq<S.Addr>, now: int) returns (remote: set<S.Key>)
      requires Valid()
      modifies this`hostMap, this`idleList
      ensures Valid() && State() == S.AddNew(cfg, old(State()), rsp, now)
      ensures remote == S.Remote(rsp)
      ensures NoneTaken(old(hostMap))
    {
      hide Queued, Pack, Keys, Listed, Hosts, S.Remote, S.AddOne;
      remote := {};
      NothingAdded(cfg, State(), now);
      assert rsp[..0] == [];
      for i := 0 to |rsp|
        invariant Valid() && State() == S.AddNew(cfg, old(State()), rsp[..i], now)
        invariant remote == S.Remote(rsp[..i])
        invariant NoneTaken(old(hostMap))
      {
        assert rsp[..i + 1][..i] == rsp[..i];
        RemoteSnoc(rsp[..i + 1]);
        remote := remote + {S.KeyOf(rsp[i])};
        AddUnknownOne(rsp[i], now);
      }
      assert rsp[..|rsp|] == rsp;
    }

    method AddUnknownOne(a: S.Addr, now: int)
      requires Valid()
      modifies this`hostMap, this`idleList
      ensures Valid() && State() == S.AddOne(cfg, old(State()), a, now)
      ensures NoneTaken(old(hostMap))
    {
      hide Queued, Pack, Keys, Listed, Hosts, S.NewHost;
      AddOneKeepsQueued(cfg, State(), a, now);
      HostKeys();
      var key := S.KeyOf(a);
      if key !in hostMap {
        var hi := new HostInfo(cfg, a, now);
        hostMap := hostMap[key := hi];
        OneAdded(key, hi);
        ListedMore(old(hostMap), hostMap, idleList);
        ListedMore(old(hostMap), hostMap, overloadList);
        KeysPush(hostMap, idleList, hi);
        label added:
        idleList := idleList + [hi];
        HostsKept@added();
      }
    }

    twostate lemma OneAdded(key: S.Key, new hi: HostInfo)
      requires key !in old(hostMap) && hostMap == old(hostMap)[key := hi]
      requires forall h | h in old(hostMap.Values) :: unchanged(h)
      ensures Hosts() == old(Hosts())[key := hi.Val()]
    {
      forall k | k in old(hostMap) ensures hostMap[k].Val() == old(hostMap[k].Val()) {
        assert old(hostMap)[k] in old(hostMap.Values);
      }
    }

    /** `update` as it is written: hosts the response does not list leave their queue and
        are deleted, and their map entries stay behind. A host that was deleted before and
        is not listed either is read and deleted again: that is the fault, and nothing is
        promised after it. The result is the set of the keys to delete. */
    method Merge(rsp: seq<S.Addr>, now: int) returns (needDelete: set<S.Key>, fault: bool)
      requires Valid() && rsp != []
      modifies this
      ensures fault <==> S.OmitsLost(old(State()), rsp)
      ensures needDelete == old(hostMap.Keys) - S.Remote(rsp)
      ensures !fault ==>
                && Valid() && State() == S.Merge(cfg, old(State()), rsp, now)
                && hostMap.Keys == old(hostMap.Keys) + S.Remote(rsp)
                && NoneTaken(old(hostMap))
                && (forall k | k in hostMap :: hostMap[k] in freed <==> hostMap[k] in old(freed) || k in needDelete)
    {
      hide Queued, Pack, Keys, Listed, Hosts, S.Remote, S.AddNew, S.Filter, FreshHost, S.Lost;
      MergeLost(cfg, State(), rsp, now);
      HostKeys();
      AddNewLost(cfg, State(), rsp, now);
      var remote := AddUnknown(rsp, now);
      HostKeys();
      needDelete := Missing(remote);
      fault := Unlist(needDelete, remote);
      if fault { return; }
      label unlisted:
      lastUpdate, status := now, S.New;
      HostsKept@unlisted();
    }

    /** The second loop of `update`: the managed hosts that the response does not list. */
    method Missing(remote: set<S.Key>) returns (needDelete: set<S.Key>)
      ensures needDelete == hostMap.Keys - remote
    {
      needDelete := {};
      var todo := hostMap.Keys;
      while todo != {}
        invariant todo <= hostMap.Keys
        invariant needDelete == (hostMap.Keys - todo) - remote
        decreases todo
      {
        var k :| k in todo;
        if k !in remote { needDelete := needDelete + {k}; }
        todo := todo - {k};
      }
    }

    /** Every host in the map was there before or is new. */
    twostate predicate NoneTaken(before: map<S.Key, HostInfo>)
      reads this, hostMap.Values
    {
      forall h | h in hostMap.Values :: h in before.Values || fresh(h)
    }

    /** The deletion loop: each host leaves the list its flag names and is deleted. It
        faults at a host that was deleted before. */
    method Unlist(needDelete: set<S.Key>, ghost remote: set<S.Key>) returns (fault: bool)
      requires Valid() && needDelete == hostMap.Keys - remote
      modifies this`idleList, this`overloadList, this`freed
      ensures fault <==> exists k :: k in needDelete && hostMap[k] in old(freed)
      ensures !fault ==>
                var s := old(State());
                && Listed(hostMap, idleList) && Listed(hostMap, overloadList)
                && State() == s.(idle := S.Filter(s.idle, remote), over := S.Filter(s.over, remote))
                && (forall k | k in hostMap :: hostMap[k] in freed <==> hostMap[k] in old(freed) || k in needDelete)
    {
      hide Queued, Pack, Keys, Listed, Hosts, S.Remove, S.Filter;
      ghost var idle, over := Keys(idleList), Keys(overloadList);
      ghost var all := hostMap.Keys;
      HostKeys();
      OwnKeys();
      Queues();
      S.FilterAll(idle, all);
      S.FilterAll(over, all);
      var todo := needDelete;
      fault := false;
      assert all - (needDelete - todo) == all;
      while todo != {}
        invariant todo <= needDelete
        invariant Listed(hostMap, idleList) && Listed(hostMap, overloadList)
        invariant Keys(idleList) == S.Filter(idle, all - (needDelete - todo))
        invariant Keys(overloadList) == S.Filter(over, all - (needDelete - todo))
        invariant forall k | k in needDelete && k !in todo :: hostMap[k] !in old(freed)
        invariant forall k | k in hostMap ::
                    hostMap[k] in freed <==> hostMap[k] in old(freed) || (k in needDelete && k !in todo)
        decreases todo
      {
        var k :| k in todo;
        ghost var keep := all - (needDelete - todo);
        assert keep - {k} == all - (needDelete - (todo - {k}));
        var hi := hostMap[k];
        if hi in freed { return true; }
        S.FilterRemove(idle, keep, k);
        S.FilterRemove(over, keep, k);
        KeysOfRemove(hostMap, idleList, hi);
        KeysOfRemove(hostMap, overloadList, hi);
        if hi.overload {
          S.FilterAgree(idle, keep, keep - {k});
          overloadList := S.Remove(overloadList, hi);
        } else {
          S.FilterAgree(over, keep, keep - {k});
          idleList := S.Remove(idleList, hi);
        }
        freed, todo := freed + {hi}, todo - {k};
      }
      assert needDelete - todo == needDelete;
      S.FilterAgree(idle, all - needDelete, remote);
      S.FilterAgree(over, all - needDelete, remote);
      HostsKept();
    }

    /** What the invariant says of the two queues. */
    lemma Queues()
      requires Valid()
      ensures forall k | k in Keys(idleList) :: k in hostMap && !hostMap[k].overload
      ensures forall k | k in Keys(overloadList) :: k in hostMap && hostMap[k].overload
    {}

    /** `update` with the entries of the deleted hosts erased. */
    method Update(rsp: seq<S.Addr>, now: int) returns (fault: bool)
      requires Valid() && rsp != []
      modifies this
      ensures fault <==> S.OmitsLost(old(State()), rsp)
      ensures !fault ==> Valid() && State() == S.Update(cfg, old(State()), rsp, now)
      ensures !fault ==> hostMap.Keys == S.Remote(rsp)
    {
      hide Queued, Pack, Keys, Listed, S.Remote, S.Merge, S.Filter, FreshHost, Hosts, S.Lost;
      UpdateReplaces(cfg, State(), rsp, now);
      MergeLost(cfg, State(), rsp, now);
      ghost var keep := S.Remote(rsp);
      var needDelete;
      needDelete, fault := Merge(rsp, now);
      if fault { return; }
      HostKeys();
      Erase(needDelete, keep);
      assert State() == S.Update(cfg, old(State()), rsp, now);
    }

    /** The entries of freed hosts go, and the lists do not name them. */
    method Erase(needDelete: set<S.Key>, ghost keep: set<S.Key>)
      requires Valid() && forall k | k in hostMap :: k in needDelete <==> k !in keep
      requires forall k | k in needDelete :: S.Lost(State(), k)
      modifies this`hostMap
      ensures var s := old(State());
              State() == s.(hosts := map k | k in s.hosts && k in keep :: s.hosts[k])
      ensures hostMap.Keys == old(hostMap.Keys) - needDelete
      ensures Listed(hostMap, idleList) && Listed(hostMap, overloadList) && FreedAreLost()
    {
      hide Pack, Keys, Listed;
      ghost var before, was := hostMap, Hosts();
      QueuesManaged(State());
      hostMap := map k | k in hostMap && k !in needDelete :: hostMap[k];
      assert Hosts() == map k | k in was && k in keep :: was[k];
      ListedFewer(before, hostMap, idleList);
      ListedFewer(before, hostMap, overloadList);
    }
  }

  lemma QueuesManaged(lb: S.Lb)
    requires Queued(lb)
    ensures forall k | k in lb.idle || k in lb.over :: k in lb.hosts
  {}

  lemma ListedFewer(m: map<S.Key, HostInfo>, m': map<S.Key, HostInfo>, l: seq<HostInfo>)
    requires Listed(m, l)
    requires forall k | k in m' :: k in m && m'[k] == m[k]
    requires forall k | k in Keys(l) :: k in m'
    ensures Listed(m', l)
  {
    hide Pack;
    forall h | h in l ensures h.Key() in m' {
      var i :| 0 <= i < |l| && l[i] == h;
      assert Keys(l)[i] == h.Key();
    }
  }
}
