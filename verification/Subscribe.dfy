/** The subscription list and the request handlers of the DNS service, with the loops
    they run; each operation does what the specification says. */
module Subscribe {
  import opened Words
  import S = DnsSpec

  ghost predicate NoEmptySets<K>(m: map<K, set<int>>) { forall k | k in m :: m[k] != {} }

  /** Two push lists without empty entries are equal when they have the same pairs. */
  lemma SamePushes(p: S.Push, q: S.Push)
    requires NoEmptySets(p) && NoEmptySets(q)
    requires forall fd :: S.Pending(p, fd) == S.Pending(q, fd)
    ensures p == q
  {
    forall fd ensures fd in p <==> fd in q {
      assert S.Pending(p, fd) == S.Pending(q, fd);
    }
    forall fd | fd in p ensures p[fd] == q[fd] {
      assert S.Pending(p, fd) == S.Pending(q, fd);
    }
  }

  function SetOf(ms: seq<S.Mod>): (s: set<S.Mod>) { set m | m in ms }

  /** One pushed response: for which pending pair it was made, the ids it names after the
      key was taken apart, and the hosts looked up under those ids. */
  datatype Notice = Notice(fd: S.Fd, mod: S.Mod, modid: Int32, cmdid: Int32, hosts: set<Uint64>)

  function NoticeOf(table: S.Table, fd: S.Fd, mod: S.Mod): (n: Notice)
    ensures n.fd == fd && n.mod == mod
    ensures Pack(n.modid, n.cmdid) == S.Repack(mod) && n.hosts == S.HostsAt(table, S.Repack(mod))
  {
    var modid, cmdid := ToInt32(HighWord(mod)), ToInt32(LowWord(mod));
    Notice(fd, mod, modid, cmdid, S.HostsAt(table, Pack(modid, cmdid)))
  }

  class SubscribeList {
    var bookList: S.Book
    var pushList: S.Push

    ghost predicate Valid()
      reads this
    {
      NoEmptySets(bookList) && NoEmptySets(pushList)
    }

    constructor ()
      ensures Valid() && bookList == map[] && pushList == map[]
    {
      bookList, pushList := map[], map[];
    }

    method Subscribe(mod: S.Mod, fd: S.Fd)
      requires Valid()
      modifies this`bookList
      ensures Valid() && bookList == S.Subscribe(old(bookList), mod, fd)
    {
      bookList := bookList[mod := S.Readers(bookList, mod) + {fd}];
    }

    method Unsubscribe(mod: S.Mod, fd: S.Fd)
      requires Valid()
      modifies this`bookList
      ensures Valid() && bookList == S.Unsubscribe(old(bookList), mod, fd)
    {
      if mod in bookList {
        bookList := bookList[mod := bookList[mod] - {fd}];
        if bookList[mod] == {} {
          bookList := bookList - {mod};
        }
      }
    }

    /** `publish`: every reader of a changed module has that module pending. */
    method Publish(changes: seq<S.Mod>)
      requires Valid()
      modifies this`pushList
      ensures Valid() && pushList == S.Publish(bookList, old(pushList), SetOf(changes))
    {
      hide S.Pending, S.Affected, S.Publish, SetOf;
      AffectedNone(bookList);
      for i := 0 to |changes|
        invariant Valid()
        invariant forall fd :: S.Pending(pushList, fd)
                            == S.Pending(old(pushList), fd) + S.Affected(bookList, SetOf(changes[..i]), fd)
      {
        var mod := changes[i];
        ghost var before := pushList;
        if mod in bookList {
          NoteReaders(mod);
        }
        AffectedSnoc(bookList, changes[..i], mod);
        assert changes[..i] + [mod] == changes[..i + 1];
      }
      assert changes[..|changes|] == changes;
      PublishFacts(bookList, old(pushList), SetOf(changes));
      SamePushes(pushList, S.Publish(bookList, old(pushList), SetOf(changes)));
    }

    /** The inner loop of `publish`. */
    method NoteReaders(mod: S.Mod)
      requires Valid() && mod in bookList
      modifies this`pushList
      ensures Valid()
      ensures forall fd :: S.Pending(pushList, fd)
                        == S.Pending(old(pushList), fd) + (if fd in S.Readers(bookList, mod) then {mod} else {})
    {
      var todo := bookList[mod];
      while todo != {}
        invariant Valid() && todo <= bookList[mod]
        invariant forall fd :: S.Pending(pushList, fd)
                            == S.Pending(old(pushList), fd) + (if fd in bookList[mod] - todo then {mod} else {})
        decreases todo
      {
        var fd :| fd in todo;
        pushList := pushList[fd := S.Pending(pushList, fd) + {mod}];
        todo := todo - {fd};
      }
    }

    /** `make_publish_map`: the pending pushes of the descriptors a loop listens to. */
    method MakePublishMap(online: set<S.Fd>) returns (need: S.Push)
      requires Valid()
      ensures NoEmptySets(need)
      ensures forall fd :: S.Pending(need, fd) == if fd in online then S.Pending(pushList, fd) else {}
    {
      need := map[];
      var todo := pushList.Keys;
      while todo != {}
        invariant todo <= pushList.Keys && NoEmptySets(need)
        invariant forall fd :: S.Pending(need, fd) == if fd in online && fd !in todo then S.Pending(pushList, fd) else {}
        decreases todo
      {
        var fd :| fd in todo;
        if fd in online {
          need := need[fd := pushList[fd]];
        }
        todo := todo - {fd};
      }
    }

    /** `push_change_task` of the loop that listens to `online`, as one atomic step: for
        every pending pair of these descriptors exactly one notice is sent, and no other;
        then they have nothing pending, and the others are as before. */
    method PushChangeTask(online: set<S.Fd>, table: S.Table) returns (sent: seq<Notice>)
      requires Valid()
      modifies this`pushList
      ensures Valid() && pushList == old(pushList) - online
      ensures forall i, j | 0 <= i < j < |sent| :: sent[i] != sent[j]
      ensures forall n :: n in sent <==>
                n.fd in online && n.mod in S.Pending(old(pushList), n.fd) && n == NoticeOf(table, n.fd, n.mod)
    {
      hide NoticeOf, SentFor, S.Pending;
      var need := MakePublishMap(online);
      sent := [];
      var todo := need.Keys;
      NothingSent(need, table);
      assert need.Keys - todo == {};
      while todo != {}
        invariant todo <= need.Keys && NoEmptySets(pushList)
        invariant pushList == old(pushList) - (need.Keys - todo)
        invariant SentFor(sent, need, need.Keys - todo, table)
        decreases todo
      {
        var fd :| fd in todo;
        var more := NoticesTo(fd, need[fd], table);
        SentMore(sent, more, need, need.Keys - todo, fd, table);
        assert need.Keys - todo + {fd} == need.Keys - (todo - {fd});
        sent := sent + more;
        pushList := pushList - {fd};
        todo := todo - {fd};
      }
      assert need.Keys - todo == need.Keys;
      AllSent(sent, need, table);
      SameKeys(old(pushList), need, online);
      assert pushList == old(pushList) - online;
    }

    /** The notices to one descriptor, in the order the set yields its modules. */
    static method NoticesTo(fd: S.Fd, mods: set<S.Mod>, table: S.Table) returns (ns: seq<Notice>)
      ensures forall i, j | 0 <= i < j < |ns| :: ns[i] != ns[j]
      ensures forall n :: n in ns <==> n.mod in mods && n == NoticeOf(table, fd, n.mod)
      ensures forall n | n in ns :: n.fd == fd
    {
      ns := [];
      var todo := mods;
      while todo != {}
        invariant todo <= mods
        invariant forall i, j | 0 <= i < j < |ns| :: ns[i] != ns[j]
        invariant forall n :: n in ns <==> n.mod in mods - todo && n == NoticeOf(table, fd, n.mod)
        decreases todo
      {
        var m :| m in todo;
        ns := ns + [NoticeOf(table, fd, m)];
        todo := todo - {m};
      }
    }
  }

  /** For each pending pair of some descriptors there is exactly one notice. */
  ghost predicate SentFor(sent: seq<Notice>, need: S.Push, fds: set<S.Fd>, table: S.Table) {
    && (forall i, j | 0 <= i < j < |sent| :: sent[i] != sent[j])
    && (forall n :: n in sent <==> n.fd in fds && n.mod in S.Pending(need, n.fd) && n == NoticeOf(table, n.fd, n.mod))
  }

  lemma NothingSent(need: S.Push, table: S.Table)
    ensures SentFor([], need, {}, table)
  {}

  lemma SentMore(sent: seq<Notice>, more: seq<Notice>, need: S.Push, fds: set<S.Fd>,
                                    fd: S.Fd, table: S.Table)
    requires SentFor(sent, need, fds, table) && fd !in fds && fd in need
    requires forall i, j | 0 <= i < j < |more| :: more[i] != more[j]
    requires forall n :: n in more <==> n.mod in need[fd] && n == NoticeOf(table, fd, n.mod)
    ensures SentFor(sent + more, need, fds + {fd}, table)
  {
    hide NoticeOf;
    forall i, j | 0 <= i < |sent| && 0 <= j < |more| ensures sent[i] != more[j] {
      assert sent[i] in sent && more[j] in more;
    }
  }

  lemma AllSent(sent: seq<Notice>, need: S.Push, table: S.Table)
    requires SentFor(sent, need, need.Keys, table)
    ensures forall i, j | 0 <= i < j < |sent| :: sent[i] != sent[j]
    ensures forall n :: n in sent <==> n.mod in S.Pending(need, n.fd) && n == NoticeOf(table, n.fd, n.mod)
  {
    hide NoticeOf;
  }

  lemma SameKeys(push: S.Push, need: S.Push, online: set<S.Fd>)
    requires NoEmptySets(push) && NoEmptySets(need)
    requires forall fd :: S.Pending(need, fd) == if fd in online then S.Pending(push, fd) else {}
    ensures push - need.Keys == push - online
  {
    forall fd ensures fd in need <==> fd in online && fd in push {
      assert S.Pending(need, fd) == if fd in online then S.Pending(push, fd) else {};
    }
  }

  lemma AffectedNone(book: S.Book)
    ensures SetOf([]) == {} && forall fd :: S.Affected(book, SetOf([]), fd) == {}
  {}

  lemma AffectedSnoc(book: S.Book, ms: seq<S.Mod>, mod: S.Mod)
    ensures forall fd :: S.Affected(book, SetOf(ms + [mod]), fd)
                      == S.Affected(book, SetOf(ms), fd) + (if fd in S.Readers(book, mod) then {mod} else {})
  {}

  lemma PublishFacts(book: S.Book, push: S.Push, changes: set<S.Mod>)
    requires NoEmptySets(push)
    ensures NoEmptySets(S.Publish(book, push, changes))
    ensures forall fd :: S.Pending(S.Publish(book, push, changes), fd) == S.Pending(push, fd) + S.Affected(book, changes, fd)
  {
    var p := S.Publish(book, push, changes);
    forall fd ensures S.Pending(p, fd) == S.Pending(push, fd) + S.Affected(book, changes, fd) {
      S.PublishMeans(book, push, changes, fd);
    }
    forall fd | fd in p ensures p[fd] != {} {
      if fd !in push {
        var mod :| mod in changes && mod in book && fd in book[mod];
        assert mod in S.Affected(book, changes, fd);
      }
    }
  }

  /** The handlers of the service, and the set each open connection carries. */
  class Service {
    const subs: SubscribeList
    var params: map<S.Fd, set<S.Mod>>

    /** A descriptor is booked for a module exactly when its connection carries it. */
    ghost predicate Valid()
      reads this, subs
    {
      && subs.Valid()
      && forall fd, mod :: fd in S.Readers(subs.bookList, mod) <==> fd in params && mod in params[fd]
    }

    constructor ()
      ensures Valid() && params == map[] && fresh(subs)
    {
      subs := new SubscribeList();
      params := map[];
    }

    /** `create_subscribe`, run when a connection is made. */
    method CreateSubscribe(fd: S.Fd)
      requires Valid() && fd !in params
      modifies this
      ensures Valid() && params == old(params)[fd := {}]
    {
      params := params[fd := {}];
    }

    /** `get_route`: the first request for a module books it, unless the connection carries
        no set; the answer is looked up either way. */
    method GetRoute(fd: S.Fd, modid: Int32, cmdid: Int32, table: S.Table) returns (hosts: set<Uint64>)
      requires Valid()
      modifies this, subs
      ensures Valid() && subs.pushList == old(subs.pushList)
      ensures var mod := Pack(modid, cmdid);
              && hosts == S.HostsAt(table, mod)
              && params == (if fd in old(params) then old(params)[fd := old(params)[fd] + {mod}] else old(params))
              && subs.bookList == (if fd !in old(params) || mod in old(params)[fd] then old(subs.bookList)
                                   else S.Subscribe(old(subs.bookList), mod, fd))
    {
      hide Pack;
      var mod := Pack(modid, cmdid);
      hosts := S.HostsAt(table, mod);
      if fd in params && mod !in params[fd] {
        params := params[fd := params[fd] + {mod}];
        subs.Subscribe(mod, fd);
        forall f, m
          ensures f in S.Readers(subs.bookList, m) <==> f in S.Readers(old(subs.bookList), m) || (f == fd && m == mod)
          ensures f in params && m in params[f] <==> (f in old(params) && m in old(params)[f]) || (f == fd && m == mod)
        {}
      } else {
        assert fd in params ==> params[fd] == params[fd] + {mod};
      }
    }

    /** `clear_subscribe`, run before a connection is destroyed: one unsubscription for
        each module it carries. Pending pushes stay. */
    method ClearSubscribe(fd: S.Fd)
      requires Valid() && fd in params
      modifies this, subs
      ensures Valid() && params == old(params) - {fd}
      ensures subs.bookList == S.UnsubscribeAll(old(subs.bookList), old(params)[fd], fd)
      ensures subs.pushList == old(subs.pushList)
    {
      hide S.UnsubscribeAll, S.Unsubscribe;
      var mods := params[fd];
      var todo := mods;
      UnsubscribeNone(subs.bookList, fd);
      assert mods - todo == {};
      while todo != {}
        invariant todo <= mods && subs.Valid() && params == old(params)
        invariant subs.pushList == old(subs.pushList)
        invariant subs.bookList == S.UnsubscribeAll(old(subs.bookList), mods - todo, fd)
        decreases todo
      {
        var mod :| mod in todo;
        UnsubscribeOneMore(old(subs.bookList), mods - todo, mod, fd);
        subs.Unsubscribe(mod, fd);
        assert mods - todo + {mod} == mods - (todo - {mod});
        todo := todo - {mod};
      }
      assert mods - todo == mods;
      params := params - {fd};
      forall mod
        ensures S.Readers(subs.bookList, mod) == S.Readers(old(subs.bookList), mod) - (if mod in mods then {fd} else {})
      {
        S.UnsubscribeAllMeans(old(subs.bookList), mods, fd, mod);
      }
    }
  }

  lemma UnsubscribeNone(book: S.Book, fd: S.Fd)
    ensures S.UnsubscribeAll(book, {}, fd) == book
  {}

  lemma UnsubscribeOneMore(book: S.Book, done: set<S.Mod>, mod: S.Mod, fd: S.Fd)
    requires mod !in done
    ensures S.Unsubscribe(S.UnsubscribeAll(book, done, fd), mod, fd) == S.UnsubscribeAll(book, done + {mod}, fd)
  {}
}
