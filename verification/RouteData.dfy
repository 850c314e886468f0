/** The double-buffered route table of the DNS service and the loop that refreshes it. */
module RouteData {
  import opened Words
  import S = DnsSpec
  import DnsRuns

  /** A row of the route table in the database, and a row of its change list. */
  datatype Row = Row(modid: Int32, cmdid: Int32, ip: Uint32, port: Int32)
  datatype Change = Change(modid: Int32, cmdid: Int32, version: int)

  const WAIT_TIME := 10

  /** The hosts of a module as a query over the rows. */
  ghost function Relation(rows: seq<Row>, modid: Int32, cmdid: Int32): (hosts: set<Uint64>) {
    set i | 0 <= i < |rows| && rows[i].modid == modid && rows[i].cmdid == cmdid :: Pack(rows[i].ip, rows[i].port)
  }

  /** Looking a module up by its packed key is that query, for every pair of ids. */
  ghost predicate Represents(t: S.Table, rows: seq<Row>) {
    forall modid: Int32, cmdid: Int32 :: S.HostsAt(t, Pack(modid, cmdid)) == Relation(rows, modid, cmdid)
  }

  /** One row more in the map. */
  function Insert(t: S.Table, r: Row): (t': S.Table) {
    var key := Pack(r.modid, r.cmdid);
    t[key := S.HostsAt(t, key) + {Pack(r.ip, r.port)}]
  }

  lemma InsertRepresents(t: S.Table, rows: seq<Row>, r: Row)
    requires Represents(t, rows)
    ensures Represents(Insert(t, r), rows + [r])
  {
    hide Pack;
    forall modid: Int32, cmdid: Int32
      ensures S.HostsAt(Insert(t, r), Pack(modid, cmdid)) == Relation(rows + [r], modid, cmdid)
    {
      RelationSnoc(rows, r, modid, cmdid);
      if Pack(modid, cmdid) == Pack(r.modid, r.cmdid) {
        PackInjective(modid, cmdid, r.modid, r.cmdid);
      }
    }
  }

  lemma RelationSnoc(rows: seq<Row>, r: Row, modid: Int32, cmdid: Int32)
    ensures Relation(rows + [r], modid, cmdid)
         == Relation(rows, modid, cmdid)
            + (if r.modid == modid && r.cmdid == cmdid then {Pack(r.ip, r.port)} else {})
  {
    hide Pack;
    var all := rows + [r];
    assert all[|rows|] == r;
    forall i | 0 <= i < |rows| ensures all[i] == rows[i] {}
  }

  class RouteMap {
    var m: S.Table

    constructor ()
      ensures m == map[]
    {
      m := map[];
    }

    /** The row loop of `build_maps` and `load_route_data`, on an empty map. */
    method Fill(rows: seq<Row>)
      requires m == map[]
      modifies this
      ensures Represents(m, rows)
    {
      hide Insert, Represents;
      EmptyRepresents();
      assert rows[..0] == [];
      for i := 0 to |rows|
        invariant Represents(m, rows[..i])
      {
        InsertRepresents(m, rows[..i], rows[i]);
        assert rows[..i] + [rows[i]] == rows[..i + 1];
        m := Insert(m, rows[i]);
      }
      assert rows[..|rows|] == rows;
    }
  }

  lemma EmptyRepresents()
    ensures Represents(map[], [])
  {}

  /** The change rows a query for `version >= v` returns, and their packed modules. */
  function ModsFrom(changes: seq<Change>, v: int): (mods: set<S.Mod>) {
    set i | 0 <= i < |changes| && changes[i].version >= v :: Pack(changes[i].modid, changes[i].cmdid)
  }

  datatype Tick = Published(changes: set<S.Mod>) | Reloaded | Unchanged

  class Route {
    var data: RouteMap
    var temp: RouteMap
    var version: int
    var lastLoad: int
    /** The rows of the last complete load. */
    ghost var loaded: seq<Row>

    ghost predicate Valid()
      reads this, data
    {
      data != temp && Represents(data.m, loaded)
    }

    constructor (rows: seq<Row>, now: int)
      ensures Valid() && loaded == rows && version == 0 && lastLoad == now
      ensures fresh(data) && fresh(temp)
    {
      var a := new RouteMap();
      var b := new RouteMap();
      a.Fill(rows);
      data, temp, version, lastLoad, loaded := a, b, 0, now, rows;
    }

    /** `get_hosts`: exactly the packed hosts of the loaded rows with these ids. */
    method GetHosts(modid: Int32, cmdid: Int32) returns (hosts: set<Uint64>)
      requires Valid()
      ensures hosts == Relation(loaded, modid, cmdid)
    {
      hide Pack, Relation;
      var key := Pack(modid, cmdid);
      hosts := {};
      if key in data.m {
        hosts := data.m[key];
      }
      assert hosts == S.HostsAt(data.m, key);
    }

    /** `load_route_data`: readers of the present table are not disturbed. */
    method LoadRouteData(rows: seq<Row>)
      requires Valid()
      modifies temp
      ensures Valid() && unchanged(data) && Represents(temp.m, rows)
    {
      temp.m := map[];
      temp.Fill(rows);
    }

    /** `swap`. */
    method Swap(ghost rows: seq<Row>)
      requires Valid() && Represents(temp.m, rows)
      modifies this`data, this`temp, this`loaded
      ensures Valid() && data == old(temp) && temp == old(data) && loaded == rows
    {
      data, temp := temp, data;
      loaded := rows;
    }

    /** One turn of `check_route_changes`: `dbVersion` is what the version query returned
        (none if the row is missing), `rows` and `changes` what the tables hold. A new
        version reloads and publishes; otherwise the table is reloaded every ten seconds. */
    method Check(dbVersion: seq<int>, rows: seq<Row>, changes: seq<Change>, now: int) returns (t: Tick)
      requires Valid() && |dbVersion| <= 1
      modifies this, data, temp
      ensures Valid()
      ensures {data, temp} == {old(data), old(temp)}
      ensures t.Published? <==> dbVersion != [] && dbVersion[0] != old(version)
      ensures t.Published? ==> t.changes == ModsFrom(changes, dbVersion[0])
      ensures t.Reloaded? <==> !t.Published? && now - old(lastLoad) >= 10
      ensures version == if t.Published? then dbVersion[0] else old(version)
      ensures t.Unchanged? ==> loaded == old(loaded) && unchanged(this) && unchanged(data)
      ensures !t.Unchanged? ==> loaded == rows && lastLoad == now
    {
      hide Represents;
      if dbVersion != [] && dbVersion[0] != version {
        version := dbVersion[0];
        LoadRouteData(rows);
        Swap(rows);
        lastLoad := now;
        return Published(ModsFrom(changes, version));
      }
      if now - lastLoad >= WAIT_TIME {
        LoadRouteData(rows);
        Swap(rows);
        lastLoad := now;
        return Reloaded;
      }
      return Unchanged;
    }
  }

  // ---------------------------------------------------------------- missed versions

  /** A change made at a version between the last one seen and the present one, to a module
      that was not changed again at the present version. */
  ghost predicate SkippedAt(changes: seq<Change>, seen: int, v: int, i: nat)
    requires i < |changes|
  {
    seen < changes[i].version < v && Pack(changes[i].modid, changes[i].cmdid) !in ModsFrom(changes, v)
  }

  /** The query asks for the present version and later. Everything that changed after the
      last version seen is among what is published if and only if no change is skipped; a
      module changed again at the present version, or a version that went down, skips none. */
  lemma PublishedAllIff(changes: seq<Change>, seen: int, v: int)
    ensures ModsFrom(changes, seen + 1) <= ModsFrom(changes, v)
       <==> forall i | 0 <= i < |changes| :: !SkippedAt(changes, seen, v, i)
  {
    hide Pack;
    var some, all := ModsFrom(changes, v), ModsFrom(changes, seen + 1);
    forall i | 0 <= i < |changes| && SkippedAt(changes, seen, v, i) ensures !(all <= some) {
      assert Pack(changes[i].modid, changes[i].cmdid) in all;
    }
    if forall i | 0 <= i < |changes| :: !SkippedAt(changes, seen, v, i) {
      forall mod | mod in all ensures mod in some {
        var i :| 0 <= i < |changes| && changes[i].version >= seen + 1 && mod == Pack(changes[i].modid, changes[i].cmdid);
        assert !SkippedAt(changes, seen, v, i);
      }
    }
  }

  /** A publication announces its changes when the change list names every module whose
      hosts differ since the last version seen and none of them was skipped. */
  lemma PublicationAnnounced(s: DnsRuns.Dns, t: S.Table, changes: seq<Change>, seen: int, v: int)
    requires forall mod | S.HostsAt(t, mod) != S.HostsAt(s.table, mod) :: mod in ModsFrom(changes, seen + 1)
    requires forall i | 0 <= i < |changes| :: !SkippedAt(changes, seen, v, i)
    ensures DnsRuns.Announced(s, DnsRuns.Publication(t, ModsFrom(changes, v)))
  {
    hide Pack, ModsFrom, SkippedAt, S.HostsAt;
    PublishedAllIff(changes, seen, v);
  }

  /** The run that skips: the service last saw version v - 2, one module changes at v - 1 and
      nothing at v, and it next sees v. Its publication announces nothing, and a connection
      that asked for the module keeps the old hosts with nothing pending. */
  lemma SkippedStaysStale(modid: Int32, cmdid: Int32, v: int)
    ensures var mod, changes := Pack(modid, cmdid), [Change(modid, cmdid, v - 1)];
            var s := DnsRuns.Run(DnsRuns.Start(1, map[]),
                                 [DnsRuns.Connect(7, 0), DnsRuns.AskRoute(7, modid, cmdid),
                                  DnsRuns.Publication(map[mod := {1}], ModsFrom(changes, v)), DnsRuns.RunTask(0)]);
            && SkippedAt(changes, v - 2, v, 0)
            && 7 in s.conns && mod in s.conns[7].subs && !DnsRuns.Current(s, 7, mod)
  {
    hide Pack, S.Publish, DnsRuns.Run, DnsRuns.Told;
    var mod, changes := Pack(modid, cmdid), [Change(modid, cmdid, v - 1)];
    assert ModsFrom(changes, v) == {};
    DnsRuns.UnannouncedStaysStale(modid, cmdid, DnsRuns.Publication(map[mod := {1}], {}));
  }
}
