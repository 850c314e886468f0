/** The load balancer of one module as values: the state of its hosts, the idle and
    the overload queue, and what an update, a report and a choice do to them. */
module LbSpec {
  import opened Words

  /** Limits of streaks are compared as unsigned numbers; initial counts are counts. */
  datatype Config = Config(
    probeNum: int, initSucc: nat, initErr: nat, errRate: real, succRate: real,
    continErrLimit: nat, continSuccLimit: nat,
    idleTimeout: int, overloadTimeout: int, updateTimeout: int)

  type Key = Uint64

  datatype Host = Host(
    ip: Uint32, port: Int32, vsucc: nat, verr: nat, rsucc: nat, rerr: nat,
    continSucc: nat, continErr: nat, idleTs: int, overloadTs: int, overload: bool)

  datatype Addr = Addr(ip: Int32, port: Int32)

  datatype Status = New | Pulling

  datatype Lb = Lb(hosts: map<Key, Host>, idle: seq<Key>, over: seq<Key>,
                   accessCnt: int, status: Status, lastUpdate: int)

  /** In the map and on neither queue: `update` took the host off its queue and freed it,
      and left its entry, which now points to freed memory. */
  predicate Lost(lb: Lb, k: Key) { k in lb.hosts && k !in lb.idle && k !in lb.over }

  predicate AnyLost(lb: Lb) { exists k | k in lb.hosts :: Lost(lb, k) }

  /** What an operation leaves: a state, or undefined behaviour, because a freed host was
      read or freed again, or because the front of an empty list was taken. */
  datatype Mem = Defined(lb: Lb) | UseAfterFree | EmptyList

  function KeyOf(a: Addr): (k: Key) { Pack(a.ip, a.port) }

  // ---------------------------------------------------------------- sequences of keys

  ghost predicate NoDup<T>(s: seq<T>) {
    forall i, j | 0 <= i < j < |s| :: s[i] != s[j]
  }

  /** `list::remove`: every occurrence goes, the others keep their order. */
  function Remove<T(==)>(s: seq<T>, x: T): (r: seq<T>) {
    if s == [] then [] else if s[0] == x then Remove(s[1..], x) else [s[0]] + Remove(s[1..], x)
  }

  /** The elements of a set, in the order of the sequence. */
  function Filter<T(==)>(s: seq<T>, keep: set<T>): (r: seq<T>) {
    if s == [] then [] else if s[0] in keep then [s[0]] + Filter(s[1..], keep) else Filter(s[1..], keep)
  }

  lemma {:induction false} FilterFacts<T>(s: seq<T>, keep: set<T>)
    ensures forall x :: x in Filter(s, keep) <==> x in s && x in keep
    ensures NoDup(s) ==> NoDup(Filter(s, keep))
  {
    if s == [] {
    } else {
      FilterFacts(s[1..], keep);
      assert s == [s[0]] + s[1..];
      if NoDup(s) { assert s[0] !in s[1..]; }
    }
  }

  lemma {:induction false} RemoveIsFilter<T>(s: seq<T>, x: T, keep: set<T>)
    requires forall y | y in s :: y in keep <==> y != x
    ensures Remove(s, x) == Filter(s, keep)
  {
    if s == [] {
    } else {
      RemoveIsFilter(s[1..], x, keep);
    }
  }

  lemma {:induction false} FilterRemove<T>(s: seq<T>, keep: set<T>, x: T)
    ensures Remove(Filter(s, keep), x) == Filter(s, keep - {x})
  {
    if s == [] {
    } else {
      FilterRemove(s[1..], keep, x);
      if s[0] in keep { assert Filter(s, keep)[1..] == Filter(s[1..], keep); }
    }
  }

  lemma {:induction false} FilterAgree<T>(s: seq<T>, a: set<T>, b: set<T>)
    requires forall x | x in s :: x in a <==> x in b
    ensures Filter(s, a) == Filter(s, b)
  {
    if s == [] {
    } else {
      FilterAgree(s[1..], a, b);
    }
  }

  lemma {:induction false} FilterAll<T>(s: seq<T>, keep: set<T>)
    requires forall x | x in s :: x in keep
    ensures Filter(s, keep) == s
  {
    if s == [] {
    } else {
      FilterAll(s[1..], keep);
    }
  }

  lemma RemoveFacts<T>(s: seq<T>, x: T)
    ensures forall y :: y in Remove(s, x) <==> y in s && y != x
    ensures NoDup(s) ==> NoDup(Remove(s, x))
  {
    var keep := (set y | y in s) - {x};
    RemoveIsFilter(s, x, keep);
    FilterFacts(s, keep);
  }

  // ---------------------------------------------------------------- one host

  function NewHost(cfg: Config, a: Addr, now: int): (h: Host) {
    Host(a.ip % 0x1_0000_0000, a.port, cfg.initSucc, 0, 0, 0, 0, 0, now, 0, false)
  }

  function SetIdle(cfg: Config, h: Host, now: int): (h': Host) {
    h.(vsucc := cfg.initSucc, verr := 0, rsucc := 0, rerr := 0, continSucc := 0, continErr := 0,
       overload := false, idleTs := now)
  }

  function SetOverload(cfg: Config, h: Host, now: int): (h': Host) {
    h.(vsucc := 0, verr := cfg.initErr, rsucc := 0, rerr := 0, continSucc := 0, continErr := 0,
       overload := true, overloadTs := now)
  }

  function Count(h: Host, ok: bool): (h': Host) {
    if ok then h.(vsucc := h.vsucc + 1, rsucc := h.rsucc + 1, continSucc := h.continSucc + 1, continErr := 0)
    else h.(verr := h.verr + 1, rerr := h.rerr + 1, continErr := h.continErr + 1, continSucc := 0)
  }

  /** `part / (vsucc + verr) > limit`, as computed after a count, when the sum is positive. */
  predicate RateAbove(h: Host, part: nat, limit: real)
    requires h.vsucc + h.verr > 0
  {
    part as real / (h.vsucc + h.verr) as real > limit
  }

  predicate TurnsOverload(cfg: Config, h: Host)
    requires h.vsucc + h.verr > 0
  {
    RateAbove(h, h.verr, cfg.errRate) || h.continErr >= cfg.continErrLimit
  }

  predicate TurnsIdle(cfg: Config, h: Host)
    requires h.vsucc + h.verr > 0
  {
    RateAbove(h, h.vsucc, cfg.succRate) || h.continSucc >= cfg.continSuccLimit
  }

  /** A report about one host: count, then the rate and streak rules, then the time windows. */
  function ReportHost(cfg: Config, h0: Host, ok: bool, now: int): (h: Host) {
    var h := Count(h0, ok);
    if !h.overload && !ok && TurnsOverload(cfg, h) then SetOverload(cfg, h, now)
    else if h.overload && ok && TurnsIdle(cfg, h) then SetIdle(cfg, h, now)
    else if !h.overload then
      if now - h.idleTs >= cfg.idleTimeout then SetIdle(cfg, h, now) else h
    else
      if now - h.overloadTs >= cfg.overloadTimeout then SetIdle(cfg, h, now) else h
  }

  // ---------------------------------------------------------------- the balancer

  function Report(cfg: Config, lb: Lb, k: Key, ok: bool, now: int): (lb': Lb) {
    if k !in lb.hosts then lb
    else
      var h := ReportHost(cfg, lb.hosts[k], ok, now);
      var moved := lb.(hosts := lb.hosts[k := h]);
      if h.overload == lb.hosts[k].overload then moved
      else if h.overload then moved.(idle := Remove(lb.idle, k), over := lb.over + [k])
      else moved.(over := Remove(lb.over, k), idle := lb.idle + [k])
  }

  /** What a choice returns; taking the front of an empty list is undefined. */
  datatype Choice = Picked(k: Key) | AllOverloaded | EmptyFront

  function Choose(cfg: Config, lb: Lb): (r: (Lb, Choice)) {
    if lb.idle == [] then
      if lb.accessCnt >= cfg.probeNum then PickOver(lb.(accessCnt := 0))
      else (lb.(accessCnt := lb.accessCnt + 1), AllOverloaded)
    else if lb.over == [] then PickIdle(lb)
    else if lb.accessCnt >= cfg.probeNum then PickOver(lb.(accessCnt := 0))
    else PickIdle(lb.(accessCnt := lb.accessCnt + 1))
  }

  function PickIdle(lb: Lb): (r: (Lb, Choice)) {
    if lb.idle == [] then (lb, EmptyFront)
    else (lb.(idle := lb.idle[1..] + [lb.idle[0]]), Picked(lb.idle[0]))
  }

  function PickOver(lb: Lb): (r: (Lb, Choice)) {
    if lb.over == [] then (lb, EmptyFront)
    else (lb.(over := lb.over[1..] + [lb.over[0]]), Picked(lb.over[0]))
  }

  /** The keys a response lists. */
  function Remote(rsp: seq<Addr>): (ks: set<Key>) {
    set i | 0 <= i < |rsp| :: KeyOf(rsp[i])
  }

  function AddOne(cfg: Config, lb: Lb, a: Addr, now: int): (lb': Lb) {
    if KeyOf(a) in lb.hosts then lb
    else lb.(hosts := lb.hosts[KeyOf(a) := NewHost(cfg, a, now)], idle := lb.idle + [KeyOf(a)])
  }

  /** The first loop of `update`: unknown hosts enter the map and the tail of the idle list. */
  function AddNew(cfg: Config, lb: Lb, rsp: seq<Addr>, now: int): (lb': Lb) {
    if rsp == [] then lb
    else AddOne(cfg, AddNew(cfg, lb, rsp[..|rsp| - 1], now), rsp[|rsp| - 1], now)
  }

  /** The response omits a host that was freed before: `update` finds its entry, reads its
      flag and frees it again. */
  predicate OmitsLost(lb: Lb, rsp: seq<Addr>) {
    exists k | k in lb.hosts :: Lost(lb, k) && k !in Remote(rsp)
  }

  /** `update` as it is written, on a response that lists every host freed before: hosts
      that are not in the response leave their list and are freed, but their map entries
      stay. */
  function Merge(cfg: Config, lb: Lb, rsp: seq<Addr>, now: int): (lb': Lb) {
    var p := AddNew(cfg, lb, rsp, now);
    p.(idle := Filter(p.idle, Remote(rsp)), over := Filter(p.over, Remote(rsp)),
       status := New, lastUpdate := now)
  }

  /** `update` with the entries of the freed hosts erased as well. */
  function Update(cfg: Config, lb: Lb, rsp: seq<Addr>, now: int): (lb': Lb) {
    var p := Merge(cfg, lb, rsp, now);
    p.(hosts := map k | k in p.hosts && k in Remote(rsp) :: p.hosts[k])
  }
}
