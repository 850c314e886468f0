/** The client's `get_host` and `get_route`: how they find their replies among the datagrams
    that arrive on the three sockets they share, with one counter for the host requests. */
module Client {
  import opened Words

  const WRAP := 0x1_0000_0000

  /** What `recvfrom` delivers: a host reply, a route reply, which carries no number, or
      anything the client cannot use (a receive error, another message id, or a body it
      cannot parse). */
  datatype Datagram = Reply(seqNo: Uint32, modid: Int32, cmdid: Int32, retcode: Int32)
                    | RouteReply(modid: Int32, cmdid: Int32)
                    | Unusable

  /** `Blocked`: the call waits for a datagram that never comes. `WildSubscript`: the ids
      select no socket. `Routed`: the route arrived. */
  datatype Outcome = RetCode(code: Int32) | SystemError | Blocked | WildSubscript | Routed

  /** The receive loop over the datagrams in the order they arrive: replies to earlier
      requests are skipped. */
  function Await(q: seq<Datagram>, s: Uint32, modid: Int32, cmdid: Int32): (r: (Outcome, seq<Datagram>)) {
    if q == [] then (Blocked, [])
    else match q[0]
      case Unusable => (SystemError, q[1..])
      case RouteReply(_, _) => (SystemError, q[1..])
      case Reply(n, m, c, code) =>
        if n < s then Await(q[1..], s, modid, cmdid)
        else if n == s && m == modid && c == cmdid then (RetCode(code), q[1..])
        else (SystemError, q[1..])
  }

  predicate Stale(d: Datagram, s: Uint32) { d.Reply? && d.seqNo < s }

  predicate Answers(d: Datagram, s: Uint32, modid: Int32, cmdid: Int32) {
    d.Reply? && d.seqNo == s && d.modid == modid && d.cmdid == cmdid
  }

  /** The i-th datagram is the first that is not an earlier reply. */
  ghost predicate FirstAt(q: seq<Datagram>, s: Uint32, i: nat) {
    i < |q| && !Stale(q[i], s) && forall j | 0 <= j < i :: Stale(q[j], s)
  }

  /** The loop blocks exactly when all datagrams are earlier replies. Otherwise the first
      one that is not decides: its code if it answers this request, and an error if it
      does not; the rest stays queued. */
  lemma AwaitIff(q: seq<Datagram>, s: Uint32, modid: Int32, cmdid: Int32)
    ensures var (o, rest) := Await(q, s, modid, cmdid);
            && (o == Blocked <==> forall d | d in q :: Stale(d, s))
            && (o == Blocked ==> rest == [])
            && (forall i: nat | FirstAt(q, s, i) ::
                  && o == (if Answers(q[i], s, modid, cmdid) then RetCode(q[i].retcode) else SystemError)
                  && rest == q[i + 1..])
  {
    hide Await;
    BlockedIff(q, s, modid, cmdid);
    forall i: nat | FirstAt(q, s, i)
      ensures Await(q, s, modid, cmdid).0
              == (if Answers(q[i], s, modid, cmdid) then RetCode(q[i].retcode) else SystemError)
      ensures Await(q, s, modid, cmdid).1 == q[i + 1..]
    {
      FirstDecides(q, s, modid, cmdid, i);
    }
  }

  lemma {:induction false} BlockedIff(q: seq<Datagram>, s: Uint32, modid: Int32, cmdid: Int32)
    ensures Await(q, s, modid, cmdid).0 == Blocked <==> forall d | d in q :: Stale(d, s)
    ensures Await(q, s, modid, cmdid).0 == Blocked ==> Await(q, s, modid, cmdid).1 == []
  {
    if q == [] {
    } else if Stale(q[0], s) {
      assert forall d :: d in q <==> d == q[0] || d in q[1..] by { assert q == [q[0]] + q[1..]; }
      BlockedIff(q[1..], s, modid, cmdid);
    } else {
      assert q[0] in q;
    }
  }

  lemma {:induction false} FirstDecides(q: seq<Datagram>, s: Uint32, modid: Int32, cmdid: Int32, i: nat)
    requires FirstAt(q, s, i)
    ensures Await(q, s, modid, cmdid)
            == (if Answers(q[i], s, modid, cmdid) then RetCode(q[i].retcode) else SystemError, q[i + 1..])
  {
    if i == 0 {
    } else {
      FirstDecides(q[1..], s, modid, cmdid, i - 1);
      assert q[1..][i..] == q[i + 1..];
    }
  }

  // ---------------------------------------------------------------- one call

  datatype Ids = Ids(modid: Int32, cmdid: Int32)

  /** The datagrams on each of the three sockets. */
  type Queues = q: seq<seq<Datagram>> | |q| == 3 witness [[], [], []]

  const NO_DATAGRAMS: Queues := [[], [], []]

  /** A call: what it asks for, whether the request could be sent, and what arrives on the
      sockets before the call returns. */
  datatype Attempt = Attempt(ids: Ids, sent: bool, arriving: Queues)
                   | RouteAttempt(ids: Ids, sent: bool, arriving: Queues)

  /** The host requests made so far, in order, and the datagrams queued: the n-th request
      carries the number n modulo 2^32, whatever socket it uses. */
  datatype Net = Net(requests: seq<Ids>, queues: Queues)

  function Arrived(queues: Queues, arriving: Queues): (qs: Queues) {
    [queues[0] + arriving[0], queues[1] + arriving[1], queues[2] + arriving[2]]
  }

  predicate HasSocket(ids: Ids) { 0 <= ShardIndex(ids.modid, ids.cmdid) < 3 }

  /** `get_route` takes one datagram, whatever it is. */
  function TakeOne(q: seq<Datagram>, ids: Ids): (r: (Outcome, seq<Datagram>)) {
    if q == [] then (Blocked, [])
    else (if q[0] == RouteReply(ids.modid, ids.cmdid) then Routed else SystemError, q[1..])
  }

  /** The host requests after a call. */
  function Asked(requests: seq<Ids>, c: Attempt): (r: seq<Ids>) {
    if c.Attempt? then requests + [c.ids] else requests
  }

  function Call(net: Net, c: Attempt): (r: (Net, Outcome)) {
    var requests, qs := Asked(net.requests, c), Arrived(net.queues, c.arriving);
    if !HasSocket(c.ids) then (Net(requests, qs), WildSubscript)
    else if !c.sent then (Net(requests, qs), SystemError)
    else
      var i := ShardIndex(c.ids.modid, c.ids.cmdid);
      var a := if c.Attempt? then Await(qs[i], |net.requests| % WRAP, c.ids.modid, c.ids.cmdid)
               else TakeOne(qs[i], c.ids);
      (Net(requests, qs[i := a.1]), a.0)
  }

  class LarsClient {
    var seqId: Uint32
    /** The datagrams queued on the three sockets. */
    var socks: Queues
    ghost var requests: seq<Ids>

    ghost predicate Valid()
      reads this
    {
      seqId == |requests| % WRAP
    }

    constructor ()
      ensures Valid() && requests == [] && socks == NO_DATAGRAMS
    {
      seqId, socks, requests := 0, NO_DATAGRAMS, [];
    }

    /** `get_host`: one step of the run; the counter is the number of requests modulo 2^32. */
    method GetHost(modid: Int32, cmdid: Int32, sent: bool, arriving: Queues) returns (o: Outcome)
      requires Valid()
      modifies this
      ensures Valid()
      ensures (Net(requests, socks), o) == Call(old(Net(requests, socks)), Attempt(Ids(modid, cmdid), sent, arriving))
    {
      hide ShardIndex;
      var s := seqId;
      NextNumber(|requests|);
      seqId := (seqId + 1) % WRAP;
      requests := requests + [Ids(modid, cmdid)];
      socks := Arrived(socks, arriving);
      var index := ShardIndex(modid, cmdid);
      if index < 0 || index >= 3 { return WildSubscript; }
      if !sent { return SystemError; }
      var q := socks[index];
      while q != [] && q[0].Reply? && q[0].seqNo < s
        invariant Await(q, s, modid, cmdid) == Await(socks[index], s, modid, cmdid)
        decreases |q|
      {
        q := q[1..];
      }
      if q == [] {
        socks := socks[index := []];
        return Blocked;
      }
      var d := q[0];
      socks := socks[index := q[1..]];
      if !d.Reply? || d.seqNo != s || d.modid != modid || d.cmdid != cmdid { return SystemError; }
      return RetCode(d.retcode);
    }

    /** `get_route`: it does not count and takes the first datagram on its socket. */
    method GetRoute(modid: Int32, cmdid: Int32, sent: bool, arriving: Queues) returns (o: Outcome)
      requires Valid()
      modifies this`socks
      ensures Valid()
      ensures (Net(requests, socks), o) == Call(old(Net(requests, socks)), RouteAttempt(Ids(modid, cmdid), sent, arriving))
    {
      hide ShardIndex;
      socks := Arrived(socks, arriving);
      var index := ShardIndex(modid, cmdid);
      if index < 0 || index >= 3 { return WildSubscript; }
      if !sent { return SystemError; }
      var q := socks[index];
      if q == [] {
        assert socks[index := []] == socks;
        return Blocked;
      }
      socks := socks[index := q[1..]];
      if !q[0].RouteReply? || q[0].modid != modid || q[0].cmdid != cmdid { return SystemError; }
      return Routed;
    }
  }

  lemma NextNumber(n: nat)
    ensures (n % WRAP + 1) % WRAP == (n + 1) % WRAP
  {}

  // ---------------------------------------------------------------- whole runs

  function Calls(cs: seq<Attempt>): (net: Net) {
    if cs == [] then Net([], NO_DATAGRAMS)
    else Call(Calls(cs[..|cs| - 1]), cs[|cs| - 1]).0
  }

  /** A reply the agent can have sent: it echoes the number and the ids of a request. */
  predicate Echo(requests: seq<Ids>, d: Datagram, n: nat) {
    n < |requests| && Answers(d, n % WRAP, requests[n].modid, requests[n].cmdid)
  }

  ghost predicate EchoesOne(requests: seq<Ids>, d: Datagram) {
    exists n: nat :: Echo(requests, d, n)
  }

  ghost predicate Echoes(requests: seq<Ids>, q: seq<Datagram>) {
    forall d | d in q :: d.RouteReply? || EchoesOne(requests, d)
  }

  ghost predicate AllEcho(requests: seq<Ids>, qs: Queues) {
    forall i | 0 <= i < 3 :: Echoes(requests, qs[i])
  }

  /** The agent only echoes: a host reply that arrives during the i-th call, on whatever
      socket, answers that request or an earlier one. */
  ghost predicate Honest(cs: seq<Attempt>) {
    forall i | 0 <= i < |cs| :: AllEcho(Asked(Calls(cs[..i]).requests, cs[i]), cs[i].arriving)
  }

  lemma {:induction false} AwaitSuffix(q: seq<Datagram>, s: Uint32, modid: Int32, cmdid: Int32) returns (k: nat)
    ensures k <= |q| && Await(q, s, modid, cmdid).1 == q[k..]
  {
    if q == [] {
      k := 0;
    } else if Stale(q[0], s) {
      k := AwaitSuffix(q[1..], s, modid, cmdid);
      k := k + 1;
    } else {
      k := 1;
    }
  }

  lemma EchoGrows(requests: seq<Ids>, ids: Ids, q: seq<Datagram>)
    requires Echoes(requests, q)
    ensures Echoes(requests + [ids], q)
  {
    forall d | d in q && !d.RouteReply? ensures EchoesOne(requests + [ids], d) {
      assert EchoesOne(requests, d);
      var n: nat :| Echo(requests, d, n);
      assert Echo(requests + [ids], d, n);
    }
  }

  lemma ArrivedEcho(requests: seq<Ids>, c: Attempt, queues: Queues)
    requires AllEcho(requests, queues) && AllEcho(Asked(requests, c), c.arriving)
    ensures AllEcho(Asked(requests, c), Arrived(queues, c.arriving))
  {
    hide EchoesOne;
    EchoGrows(requests, c.ids, queues[0]);
    EchoGrows(requests, c.ids, queues[1]);
    EchoGrows(requests, c.ids, queues[2]);
  }

  lemma CallEchoes(net: Net, c: Attempt)
    requires AllEcho(net.requests, net.queues) && AllEcho(Asked(net.requests, c), c.arriving)
    ensures var net' := Call(net, c).0;
            AllEcho(net'.requests, net'.queues) && net'.requests == Asked(net.requests, c)
  {
    hide Await, EchoesOne, ShardIndex, Arrived, Asked;
    ArrivedEcho(net.requests, c, net.queues);
    if HasSocket(c.ids) && c.sent {
      var q := Arrived(net.queues, c.arriving)[ShardIndex(c.ids.modid, c.ids.cmdid)];
      var k := AwaitSuffix(q, |net.requests| % WRAP, c.ids.modid, c.ids.cmdid);
      assert forall d | d in q[k..] :: d in q;
      assert q != [] ==> forall d | d in q[1..] :: d in q;
    }
  }

  lemma {:induction false} RunEchoes(cs: seq<Attempt>, n: nat)
    requires Honest(cs) && n <= |cs|
    ensures var net := Calls(cs[..n]); AllEcho(net.requests, net.queues)
  {
    hide Call, EchoesOne;
    if n == 0 {
    } else {
      assert cs[..n][..n - 1] == cs[..n - 1];
      RunEchoes(cs, n - 1);
      CallEchoes(Calls(cs[..n - 1]), cs[n - 1]);
    }
  }

  /** The i-th datagram answers the present request with this outcome, and those before it
      answer earlier requests. */
  ghost predicate OwnReply(earlier: seq<Ids>, ids: Ids, q: seq<Datagram>, o: Outcome, i: nat) {
    && i < |q| && Echo(earlier + [ids], q[i], |earlier|) && o == RetCode(q[i].retcode)
    && (forall j | 0 <= j < i :: EchoesOne(earlier, q[j]))
  }

  /** The i-th datagram is a route reply, and those before it answer earlier host requests. */
  ghost predicate RouteFirst(earlier: seq<Ids>, q: seq<Datagram>, i: nat) {
    i < |q| && q[i].RouteReply? && forall j | 0 <= j < i :: EchoesOne(earlier, q[j])
  }

  /** Over every run of both calls against an agent that echoes, for every host call among
      the first 2^32, whatever sockets the calls use. A call that was sent gets a code
      exactly when a reply to its own request is queued on its socket with nothing but
      replies to earlier host requests before it, and then it is that reply's code; it ends
      in an error exactly when a route reply is queued with nothing else before it; and it
      blocks otherwise. So without route replies on its socket, it gets its code exactly
      when its own reply is queued. */
  lemma ReplyMatching(cs: seq<Attempt>, n: nat)
    requires Honest(cs) && n < |cs| && cs[n].Attempt? && |Calls(cs[..n]).requests| < WRAP
    ensures var net, c := Calls(cs[..n]), cs[n];
            var o := Call(net, c).1;
            && (o == WildSubscript <==> !HasSocket(c.ids))
            && (HasSocket(c.ids) && !c.sent ==> o == SystemError)
            && (HasSocket(c.ids) && c.sent ==>
                  var i := ShardIndex(c.ids.modid, c.ids.cmdid);
                  Matched(net.requests, c.ids, net.queues[i] + c.arriving[i], o))
  {
    hide Await, Calls, Echoes, ShardIndex, Matched, Arrived;
    var net, c := Calls(cs[..n]), cs[n];
    RunEchoes(cs, n);
    NotWild(net, c);
    if HasSocket(c.ids) && c.sent {
      var i := ShardIndex(c.ids.modid, c.ids.cmdid);
      ArrivedEcho(net.requests, c, net.queues);
      ArrivedAt(net.queues, c.arriving, i);
      MatchOne(net.requests, c.ids, net.queues[i] + c.arriving[i]);
    }
  }

  ghost predicate Matched(earlier: seq<Ids>, ids: Ids, q: seq<Datagram>, o: Outcome) {
    && (o.RetCode? <==> exists k: nat :: OwnReply(earlier, ids, q, o, k))
    && (o == SystemError <==> exists k: nat :: RouteFirst(earlier, q, k))
    && (o.RetCode? || o == SystemError || o == Blocked)
    && ((forall d | d in q :: !d.RouteReply?) ==>
          (o.RetCode? <==> exists d :: d in q && Echo(earlier + [ids], d, |earlier|)))
  }

  lemma NotWild(net: Net, c: Attempt)
    ensures HasSocket(c.ids) && c.sent ==> Call(net, c).1 != WildSubscript
  {
    if HasSocket(c.ids) && c.sent {
      NeverWild(Arrived(net.queues, c.arriving)[ShardIndex(c.ids.modid, c.ids.cmdid)], |net.requests| % WRAP,
                c.ids.modid, c.ids.cmdid);
    }
  }

  lemma {:induction false} NeverWild(q: seq<Datagram>, s: Uint32, modid: Int32, cmdid: Int32)
    ensures Await(q, s, modid, cmdid).0 != WildSubscript
  {
    if q == [] {
    } else {
      NeverWild(q[1..], s, modid, cmdid);
    }
  }

  lemma ArrivedAt(queues: Queues, arriving: Queues, i: int)
    requires 0 <= i < 3
    ensures Arrived(queues, arriving)[i] == queues[i] + arriving[i]
  {}

  /** One receive loop over echoes. */
  lemma MatchOne(earlier: seq<Ids>, ids: Ids, q: seq<Datagram>)
    requires Echoes(earlier + [ids], q) && |earlier| < WRAP
    ensures Matched(earlier, ids, q, Await(q, |earlier|, ids.modid, ids.cmdid).0)
  {
    hide Await, Answers, Matched, Echoes, Stale;
    var s := |earlier|;
    var o := Await(q, s, ids.modid, ids.cmdid).0;
    AwaitIff(q, s, ids.modid, ids.cmdid);
    if o == Blocked {
      NothingFound(earlier, ids, q);
    } else {
      var i := SomeFresh(q, s);
      var k := FirstFresh(q, s, i);
      FirstMatches(earlier, ids, q, k, o);
      FirstSettles(earlier, ids, q, k, o);
    }
  }

  lemma SomeFresh(q: seq<Datagram>, s: Uint32) returns (i: nat)
    requires !(forall d | d in q :: Stale(d, s))
    ensures i < |q| && !Stale(q[i], s)
  {
    i :| 0 <= i < |q| && !Stale(q[i], s);
  }

  lemma FirstSettles(earlier: seq<Ids>, ids: Ids, q: seq<Datagram>, k: nat, o: Outcome)
    requires k < |q|
    requires if q[k].RouteReply? then o == SystemError && RouteFirst(earlier, q, k)
             else o.RetCode? && OwnReply(earlier, ids, q, o, k) && Echo(earlier + [ids], q[k], |earlier|)
    requires q[k].RouteReply? ==> forall j: nat :: !OwnReply(earlier, ids, q, o, j)
    requires !q[k].RouteReply? ==> forall j: nat :: !RouteFirst(earlier, q, j)
    ensures Matched(earlier, ids, q, o)
  {
    hide OwnReply, RouteFirst, Echo;
    assert q[k] in q;
  }

  /** When every datagram is an earlier reply, there is neither an own nor a route reply. */
  lemma NothingFound(earlier: seq<Ids>, ids: Ids, q: seq<Datagram>)
    requires |earlier| < WRAP && forall d | d in q :: Stale(d, |earlier|)
    ensures Matched(earlier, ids, q, Blocked)
  {
    SmallMod(|earlier|);
    forall k: nat ensures !OwnReply(earlier, ids, q, Blocked, k) && !RouteFirst(earlier, q, k) {
      if k < |q| { assert q[k] in q; }
    }
  }

  /** The first datagram that is no earlier reply is the own reply or a route reply, and
      nothing else can be first. */
  lemma FirstMatches(earlier: seq<Ids>, ids: Ids, q: seq<Datagram>, k: nat, o: Outcome)
    requires Echoes(earlier + [ids], q) && |earlier| < WRAP && FirstAt(q, |earlier|, k)
    requires o == if Answers(q[k], |earlier|, ids.modid, ids.cmdid) then RetCode(q[k].retcode) else SystemError
    ensures if q[k].RouteReply? then o == SystemError && RouteFirst(earlier, q, k)
            else o.RetCode? && OwnReply(earlier, ids, q, o, k) && Echo(earlier + [ids], q[k], |earlier|)
    ensures q[k].RouteReply? ==> forall j: nat :: !OwnReply(earlier, ids, q, o, j)
    ensures !q[k].RouteReply? ==> forall j: nat :: !RouteFirst(earlier, q, j)
  {
    hide EchoesOne;
    SmallMod(|earlier|);
    forall j | 0 <= j <= k && !q[j].RouteReply?
      ensures EchoesOne(earlier + [ids], q[j])
    {
      assert q[j] in q;
    }
    if !q[k].RouteReply? { EchoOrStale(earlier, ids, q[k]); }
    forall j | 0 <= j < k ensures EchoesOne(earlier, q[j]) { EchoOrStale(earlier, ids, q[j]); }
    if !q[k].RouteReply? {
      forall j: nat ensures !RouteFirst(earlier, q, j) { FreshNotEarlier(earlier, ids, q[k]); }
    }
  }

  /** A datagram with the present number answers no earlier request. */
  lemma FreshNotEarlier(earlier: seq<Ids>, ids: Ids, d: Datagram)
    requires |earlier| < WRAP && !Stale(d, |earlier|)
    ensures !EchoesOne(earlier, d)
  {
    forall n: nat ensures !Echo(earlier, d, n) { SmallMod(n); }
  }

  /** A datagram that echoes is an earlier reply or the answer to the present request. */
  lemma EchoOrStale(earlier: seq<Ids>, ids: Ids, d: Datagram)
    requires EchoesOne(earlier + [ids], d) && |earlier| < WRAP
    ensures Stale(d, |earlier|) <==> !Echo(earlier + [ids], d, |earlier|)
    ensures Stale(d, |earlier|) ==> EchoesOne(earlier, d)
    ensures !Stale(d, |earlier|) ==> Answers(d, |earlier|, ids.modid, ids.cmdid)
  {
    var n: nat :| Echo(earlier + [ids], d, n);
    SmallMod(n);
    if Stale(d, |earlier|) { assert Echo(earlier, d, n); }
  }

  lemma SmallMod(n: nat)
    ensures n < WRAP ==> n % WRAP == n
  {}

  lemma FirstFresh(q: seq<Datagram>, s: Uint32, i: nat) returns (k: nat)
    requires i < |q| && !Stale(q[i], s)
    ensures FirstAt(q, s, k)
  {
    k := 0;
    while Stale(q[k], s)
      invariant k <= i && forall j | 0 <= j < k :: Stale(q[j], s)
      decreases i - k
    {
      k := k + 1;
    }
  }

  /** A route call that was sent: it gets its route exactly when its reply is the first
      datagram on its socket, blocks exactly when there is none, and ends in an error
      otherwise; it takes one datagram, leaves the others and does not count. */
  lemma RouteCallIff(net: Net, c: Attempt)
    requires c.RouteAttempt? && HasSocket(c.ids) && c.sent
    ensures var i := ShardIndex(c.ids.modid, c.ids.cmdid);
            var q := net.queues[i] + c.arriving[i];
            var (net', o) := Call(net, c);
            && (o == Routed <==> q != [] && q[0] == RouteReply(c.ids.modid, c.ids.cmdid))
            && (o == Blocked <==> q == [])
            && (o == Routed || o == Blocked || o == SystemError)
            && net'.requests == net.requests
            && (forall j | 0 <= j < 3 ::
                  net'.queues[j] == if j == i && q != [] then q[1..] else net.queues[j] + c.arriving[j])
  {
    hide ShardIndex;
    var i := ShardIndex(c.ids.modid, c.ids.cmdid);
    forall j | 0 <= j < 3 ensures Arrived(net.queues, c.arriving)[j] == net.queues[j] + c.arriving[j] {
      ArrivedAt(net.queues, c.arriving, j);
    }
  }

  /** The ids of the host calls of a run, in order. */
  function HostIds(cs: seq<Attempt>): (r: seq<Ids>) {
    if cs == [] then []
    else HostIds(cs[..|cs| - 1]) + (if cs[|cs| - 1].Attempt? then [cs[|cs| - 1].ids] else [])
  }

  /** Host calls are numbered in order, whether they were sent or not, and route calls are
      not: the next host call carries the number of host calls before it, modulo 2^32. */
  lemma {:induction false} NumbersInOrder(cs: seq<Attempt>)
    ensures Calls(cs).requests == HostIds(cs)
  {
    hide Await, ShardIndex, Arrived;
    if cs == [] {
    } else {
      NumbersInOrder(cs[..|cs| - 1]);
    }
  }

  // ---------------------------------------------------------------- a route reply left behind

  /** A host call whose reply arrives twice, a route call, and a host call, each answered. */
  function Crossed(ids: Ids): (cs: seq<Attempt>)
    requires HasSocket(ids)
  {
    var route := Receiving(ids, [RouteReply(ids.modid, ids.cmdid)]);
    [Receiving(ids, [ReplyTo(ids, 0), ReplyTo(ids, 0)]), RouteAttempt(ids, true, route.arriving),
     Receiving(ids, [ReplyTo(ids, 1)])]
  }

  /** The route call takes the late host reply and leaves its own behind, and the next host
      call ends in an error although its own reply is queued. */
  lemma RouteReplyLeft(ids: Ids)
    requires HasSocket(ids)
    ensures var cs := Crossed(ids);
            var net, c := Calls(cs[..2]), cs[2];
            var i := ShardIndex(ids.modid, ids.cmdid);
            && Honest(cs)
            && Call(Calls(cs[..1]), cs[1]).1 == SystemError
            && net.queues[i] == [RouteReply(ids.modid, ids.cmdid)]
            && Echo(net.requests + [ids], ReplyTo(ids, 1), 1) && ReplyTo(ids, 1) in c.arriving[i]
            && Call(net, c).1 == SystemError
  {
    hide ShardIndex, Calls, Honest, Echo;
    CrossedRun(ids);
    CrossedHonest(ids);
    var cs, i := Crossed(ids), ShardIndex(ids.modid, ids.cmdid);
    var n2, route, own := Calls(cs[..2]), RouteReply(ids.modid, ids.cmdid), ReplyTo(ids, 1);
    assert Arrived(n2.queues, cs[2].arriving)[i] == [route] + [own];
    RepliesEcho(ids, 1);
    OwnEcho(ids, 1);
    assert n2.requests + [ids] == seq(2, _ => ids);
  }

  lemma CrossedRun(ids: Ids)
    requires HasSocket(ids)
    ensures var cs, i := Crossed(ids), ShardIndex(ids.modid, ids.cmdid);
            && Calls(cs[..0]) == Net([], NO_DATAGRAMS)
            && Calls(cs[..1]) == Net([ids], NO_DATAGRAMS[i := [ReplyTo(ids, 0)]])
            && Call(Calls(cs[..1]), cs[1]).1 == SystemError
            && Calls(cs[..2]) == Net([ids], NO_DATAGRAMS[i := [RouteReply(ids.modid, ids.cmdid)]])
  {
    hide ShardIndex, Calls, Call, Receiving;
    var cs, late := Crossed(ids), ReplyTo(ids, 0);
    assert cs[..0] == [] && cs[..1] == [cs[0]] && cs[..1][..0] == [] && cs[..2][..1] == cs[..1];
    FirstCalls();
    LastCall(cs[..1]);
    OneCall(Calls([]), ids, late, [late]);
    assert [late] + [late] == [late, late] && [] + [ids] == [ids];
    LastCall(cs[..2]);
    RouteTakes(Calls(cs[..1]), ids, late, RouteReply(ids.modid, ids.cmdid));
  }

  lemma CrossedHonest(ids: Ids)
    requires HasSocket(ids)
    ensures Honest(Crossed(ids))
  {
    hide ShardIndex, Calls, Call, Echoes;
    CrossedRun(ids);
    var cs := Crossed(ids);
    RepliesEcho(ids, 0);
    RepliesEcho(ids, 1);
    RouteEchoes([ids], ids);
    assert [] + [ids] == [ids] == seq(1, _ => ids) && [ids] + [ids] == seq(2, _ => ids);
    AllOnOne(seq(1, _ => ids), ids, [ReplyTo(ids, 0), ReplyTo(ids, 0)]);
    AllOnOne([ids], ids, [RouteReply(ids.modid, ids.cmdid)]);
    AllOnOne(seq(2, _ => ids), ids, [ReplyTo(ids, 1)]);
    hide AllEcho, Receiving;
    forall n | 0 <= n < 3 ensures AllEcho(Asked(Calls(cs[..n]).requests, cs[n]), cs[n].arriving) {
      if n == 0 {
      } else if n == 1 {
      } else {
      }
    }
  }

  /** What arrives on one socket echoes, and nothing arrives on the others. */
  lemma AllOnOne(requests: seq<Ids>, ids: Ids, q: seq<Datagram>)
    requires HasSocket(ids) && Echoes(requests, q)
    ensures AllEcho(requests, Receiving(ids, q).arriving)
  {
    hide ShardIndex;
  }

  lemma RouteEchoes(requests: seq<Ids>, ids: Ids)
    ensures Echoes(requests, [RouteReply(ids.modid, ids.cmdid)]) && Echoes(requests, [])
  {}

  lemma OwnEcho(ids: Ids, n: nat)
    ensures Echo(seq(n + 1, _ => ids), ReplyTo(ids, n), n)
  {}

  lemma FirstCalls()
    ensures Calls([]) == Net([], NO_DATAGRAMS)
  {}

  /** A route call on a socket where one datagram waits before its reply. */
  lemma RouteTakes(net: Net, ids: Ids, d: Datagram, route: Datagram)
    requires HasSocket(ids) && d.Reply?
    requires net.queues == NO_DATAGRAMS[ShardIndex(ids.modid, ids.cmdid) := [d]]
    ensures var i := ShardIndex(ids.modid, ids.cmdid);
            Call(net, RouteAttempt(ids, true, Receiving(ids, [route]).arriving))
            == (Net(net.requests, NO_DATAGRAMS[i := [route]]), SystemError)
  {
    hide ShardIndex;
    var i := ShardIndex(ids.modid, ids.cmdid);
    var qs := Arrived(net.queues, Receiving(ids, [route]).arriving);
    assert forall j | 0 <= j < 3 :: qs[j] == if j == i then [d, route] else [];
    assert [d, route][1..] == [route];
    assert qs[i := [route]] == NO_DATAGRAMS[i := [route]];
  }

  // ---------------------------------------------------------------- when the counter wraps

  /** Why only the first 2^32 calls: the loop of request n skips a late reply to request t
      if and only if both lie between the same two wraps of the counter. Otherwise the late
      reply ends the call with an error, and what follows it stays queued. */
  lemma SkipsLateReplyIff(t: nat, n: nat, late: Datagram, rest: seq<Datagram>, modid: Int32, cmdid: Int32)
    requires t < n < t + WRAP && late.Reply? && late.seqNo == t % WRAP
    ensures var r := Await([late] + rest, n % WRAP, modid, cmdid);
            if t / WRAP == n / WRAP then r == Await(rest, n % WRAP, modid, cmdid)
            else r == (SystemError, rest) && r != Await(rest, n % WRAP, modid, cmdid)
  {
    EarlierIff(t, n);
    assert ([late] + rest)[1..] == rest;
    var k := AwaitSuffix(rest, n % WRAP, modid, cmdid);
    if rest != [] { AwaitTakes(rest, n % WRAP, modid, cmdid); }
  }

  lemma EarlierIff(t: nat, n: nat)
    requires t < n < t + WRAP
    ensures t % WRAP < n % WRAP <==> t / WRAP == n / WRAP
    ensures t % WRAP != n % WRAP
  {}

  lemma {:induction false} AwaitTakes(q: seq<Datagram>, s: Uint32, modid: Int32, cmdid: Int32)
    requires q != []
    ensures |Await(q, s, modid, cmdid).1| < |q|
  {
    if |q| == 1 {
    } else {
      AwaitTakes(q[1..], s, modid, cmdid);
    }
  }

  /** The agent's reply to request n. */
  function ReplyTo(ids: Ids, n: nat): (d: Datagram) { Reply(n % WRAP, ids.modid, ids.cmdid, 0) }

  /** A call for these ids during which `q` arrives on its socket. */
  function Receiving(ids: Ids, q: seq<Datagram>): (c: Attempt)
    requires HasSocket(ids)
  {
    Attempt(ids, true, NO_DATAGRAMS[ShardIndex(ids.modid, ids.cmdid) := q])
  }

  /** n calls, each answered at once. */
  function Answered(ids: Ids, n: nat): (cs: seq<Attempt>)
    requires HasSocket(ids)
  {
    seq(n, i requires 0 <= i < n => Receiving(ids, [ReplyTo(ids, i)]))
  }

  /** All numbers are used once, and the last reply arrives twice; one more call follows. */
  function Wrapped(ids: Ids): (cs: seq<Attempt>)
    requires HasSocket(ids)
  {
    var last := ReplyTo(ids, WRAP - 1);
    Answered(ids, WRAP - 1) + [Receiving(ids, [last, last]), Receiving(ids, [ReplyTo(ids, WRAP)])]
  }

  lemma OneCall(net: Net, ids: Ids, d: Datagram, rest: seq<Datagram>)
    requires HasSocket(ids) && net.queues == NO_DATAGRAMS
    requires Answers(d, |net.requests| % WRAP, ids.modid, ids.cmdid)
    ensures var i := ShardIndex(ids.modid, ids.cmdid);
            Call(net, Receiving(ids, [d] + rest)).0 == Net(net.requests + [ids], NO_DATAGRAMS[i := rest])
  {
    hide ShardIndex;
    var i := ShardIndex(ids.modid, ids.cmdid);
    var qs := Arrived(net.queues, Receiving(ids, [d] + rest).arriving);
    assert forall j | 0 <= j < 3 :: qs[j] == if j == i then [d] + rest else [];
    assert qs == NO_DATAGRAMS[i := [d] + rest];
    assert ([d] + rest)[1..] == rest;
  }

  lemma {:induction false} AnsweredRun(ids: Ids, n: nat)
    requires HasSocket(ids)
    ensures Calls(Answered(ids, n)) == Net(seq(n, _ => ids), NO_DATAGRAMS)
  {
    hide Call, ShardIndex, Receiving;
    if n == 0 {
    } else {
      AnsweredRun(ids, n - 1);
      assert Answered(ids, n)[..n - 1] == Answered(ids, n - 1);
      OneCall(Calls(Answered(ids, n - 1)), ids, ReplyTo(ids, n - 1), []);
      assert [ReplyTo(ids, n - 1)] + [] == [ReplyTo(ids, n - 1)];
      assert seq(n, _ => ids) == seq(n - 1, _ => ids) + [ids];
      assert NO_DATAGRAMS[ShardIndex(ids.modid, ids.cmdid) := []] == NO_DATAGRAMS;
    }
  }

  /** The run up to each of its last two calls. */
  lemma WrappedRun(ids: Ids)
    requires HasSocket(ids)
    ensures var cs := Wrapped(ids);
            && |cs| == WRAP + 1
            && (forall n | 0 <= n < WRAP :: Calls(cs[..n]) == Net(seq(n, _ => ids), NO_DATAGRAMS))
            && Calls(cs[..WRAP]) == Net(seq(WRAP, _ => ids),
                 NO_DATAGRAMS[ShardIndex(ids.modid, ids.cmdid) := [ReplyTo(ids, WRAP - 1)]])
  {
    hide Call, ShardIndex, Receiving, ReplyTo, Calls;
    var cs, last := Wrapped(ids), ReplyTo(ids, WRAP - 1);
    forall n: nat | n < WRAP ensures Calls(cs[..n]) == Net(seq(n, _ => ids), NO_DATAGRAMS) {
      assert cs[..n] == Answered(ids, n);
      AnsweredRun(ids, n);
    }
    var net := Calls(cs[..WRAP - 1]);
    assert cs[..WRAP][..WRAP - 1] == cs[..WRAP - 1] && cs[..WRAP][WRAP - 1] == Receiving(ids, [last, last]);
    LastCall(cs[..WRAP]);
    ReplyAnswers(ids, WRAP - 1);
    OneCall(net, ids, last, [last]);
    assert [last] + [last] == [last, last];
    assert seq(WRAP, _ => ids) == seq(WRAP - 1, _ => ids) + [ids];
  }

  lemma LastCall(cs: seq<Attempt>)
    requires cs != []
    ensures Calls(cs) == Call(Calls(cs[..|cs| - 1]), cs[|cs| - 1]).0
  {}

  lemma ReplyAnswers(ids: Ids, n: nat)
    ensures Answers(ReplyTo(ids, n), n % WRAP, ids.modid, ids.cmdid)
  {}

  /** The bound of `ReplyMatching` cannot be raised: in this run against an agent that only
      echoes, call number 2^32 ends in an error although the reply to its own request is
      queued. */
  lemma WrapLosesReply(ids: Ids)
    requires HasSocket(ids)
    ensures var cs := Wrapped(ids);
            var net, c := Calls(cs[..WRAP]), cs[WRAP];
            var i := ShardIndex(ids.modid, ids.cmdid);
            && Honest(cs)
            && ReplyTo(ids, WRAP) in net.queues[i] + c.arriving[i]
            && Echo(net.requests + [ids], ReplyTo(ids, WRAP), WRAP)
            && Call(net, c).1 == SystemError
  {
    hide Calls, ShardIndex;
    WrappedRun(ids);
    var cs, i := Wrapped(ids), ShardIndex(ids.modid, ids.cmdid);
    var net, c := Calls(cs[..WRAP]), cs[WRAP];
    var late, own := ReplyTo(ids, WRAP - 1), ReplyTo(ids, WRAP);
    assert c == Receiving(ids, [own]);
    assert Arrived(net.queues, c.arriving)[i] == [late] + [own];
    SkipsLateReplyIff(WRAP - 1, WRAP, late, [own], ids.modid, ids.cmdid);
    WrappedHonest(ids);
  }

  lemma WrappedHonest(ids: Ids)
    requires HasSocket(ids)
    ensures Honest(Wrapped(ids))
  {
    hide Calls, ShardIndex, Call, Echoes;
    WrappedRun(ids);
    var cs := Wrapped(ids);
    forall n | 0 <= n < |cs| ensures AllEcho(Calls(cs[..n]).requests + [cs[n].ids], cs[n].arriving) {
      var all := seq(n + 1, _ => ids);
      assert Calls(cs[..n]).requests + [ids] == all;
      RepliesEcho(ids, n);
    }
  }

  lemma RepliesEcho(ids: Ids, n: nat)
    ensures Echoes(seq(n + 1, _ => ids), []) && Echoes(seq(n + 1, _ => ids), [ReplyTo(ids, n)])
    ensures Echoes(seq(n + 1, _ => ids), [ReplyTo(ids, n), ReplyTo(ids, n)])
  {
    assert Echo(seq(n + 1, _ => ids), ReplyTo(ids, n), n);
  }
}
