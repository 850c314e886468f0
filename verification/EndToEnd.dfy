/** From a row of the database to a host in the hands of a caller and back. */
module EndToEnd {
  import opened Words
  import opened LbSpec
  import opened LbRuns
  import opened RouteData

  /** The host list of a response: each packed host taken apart into two signed fields. */
  function HostList(hosts: seq<Uint64>): (rsp: seq<Addr>) {
    seq(|hosts|, i requires 0 <= i < |hosts| => Addr(ToInt32(HighWord(hosts[i])), ToInt32(LowWord(hosts[i]))))
  }

  lemma CarriesKey(ip: Uint32, port: Int32)
    requires port >= 0
    ensures var key := Pack(ip, port);
            Pack(ToInt32(HighWord(key)), ToInt32(LowWord(key))) == key
  {
    hide *;
    HostKeyTripIff(ip, port);
  }

  /** The ports of this module's rows are not negative. */
  ghost predicate PortsOk(rows: seq<Row>, modid: Int32, cmdid: Int32) {
    forall r | r in rows && r.modid == modid && r.cmdid == cmdid :: r.port >= 0
  }

  /** The agent reads from a response exactly the keys the service packed. */
  lemma RemoteIsRelation(rows: seq<Row>, modid: Int32, cmdid: Int32, order: seq<Uint64>)
    requires forall k :: k in order <==> k in Relation(rows, modid, cmdid)
    requires PortsOk(rows, modid, cmdid)
    ensures Remote(HostList(order)) == Relation(rows, modid, cmdid)
  {
    hide Pack, ToInt32, HighWord, LowWord;
    var rsp := HostList(order);
    forall i | 0 <= i < |order| ensures KeyOf(rsp[i]) == order[i] {
      assert order[i] in order;
      var j :| 0 <= j < |rows| && rows[j].modid == modid && rows[j].cmdid == cmdid
               && order[i] == Pack(rows[j].ip, rows[j].port);
      CarriesKey(rows[j].ip, rows[j].port);
    }
    forall k | k in Relation(rows, modid, cmdid) ensures k in Remote(rsp) {
      var i :| 0 <= i < |order| && order[i] == k;
      assert KeyOf(rsp[i]) == k;
    }
  }

  /** The whole path, for every table in which the module's ports are not negative and every
      order in which the service lists its rows. The agent applies the response as it is
      written: it uses freed memory exactly when a host it freed before is not among the
      rows. Otherwise the hosts on its queues are exactly the rows of that module that were
      not lost before, all of them if none was; every host it then hands out is one of
      them; and the address it is handed out with leads a later report to the same host. */
  lemma HandsOutTheRows(cfg: Config, lb: Lb, rows: seq<Row>, modid: Int32, cmdid: Int32,
                        order: seq<Uint64>, now: int)
    requires Queued(lb)
    requires forall k :: k in order <==> k in Relation(rows, modid, cmdid)
    requires PortsOk(rows, modid, cmdid)
    ensures var m := Step(cfg, false, lb, DnsUpdate(HostList(order), now));
            && (m == UseAfterFree <==> exists k :: Lost(lb, k) && k !in Relation(rows, modid, cmdid))
            && (m == UseAfterFree || m.Defined?)
            && (Partition(lb) ==>
                  m.Defined? && forall k :: k in m.lb.hosts && !Lost(m.lb, k) <==> k in Relation(rows, modid, cmdid))
            && (m.Defined? ==>
                  && (forall k :: k in m.lb.hosts && !Lost(m.lb, k) <==> k in Relation(rows, modid, cmdid) && !Lost(lb, k))
                  && var c := Choose(cfg, m.lb).1;
                  && (c.EmptyFront? ==> forall k | k in Relation(rows, modid, cmdid) :: Lost(lb, k))
                  && (c.Picked? ==>
                        && c.k in Relation(rows, modid, cmdid) && !Lost(lb, c.k) && c.k in m.lb.hosts
                        && Pack(ToInt32(m.lb.hosts[c.k].ip), m.lb.hosts[c.k].port) == c.k))
  {
    hide Pack, Step, Choose, Relation, HostList, Filter, FreshHost, Remote, Lost, PortsOk;
    var m := Step(cfg, false, lb, DnsUpdate(HostList(order), now));
    RemoteIsRelation(rows, modid, cmdid, order);
    MergeReplaces(cfg, lb, HostList(order), now);
    LostManaged(lb);
    if m.Defined? {
      ChooseKeepsQueued(cfg, m.lb);
      var c := Choose(cfg, m.lb).1;
      if c.Picked? { PackIgnoresSign(m.lb.hosts[c.k].ip, m.lb.hosts[c.k].port); }
    }
  }

  lemma LostManaged(lb: Lb)
    ensures forall k | Lost(lb, k) :: k in lb.hosts
  {}
}
