/** The DNS service as values: who subscribed to what, which pushes are pending, and
    what each connection was last told. */
module DnsSpec {
  import opened Words

  type Mod = Uint64
  type Fd = Int32
  type Book = map<Mod, set<Fd>>
  type Push = map<Fd, set<Mod>>
  /** Packed hosts by packed module. */
  type Table = map<Mod, set<Uint64>>

  function Readers(book: Book, mod: Mod): (fds: set<Fd>) { if mod in book then book[mod] else {} }
  function Pending(push: Push, fd: Fd): (mods: set<Mod>) { if fd in push then push[fd] else {} }
  function HostsAt(t: Table, mod: Mod): (hosts: set<Uint64>) { if mod in t then t[mod] else {} }

  function Subscribe(book: Book, mod: Mod, fd: Fd): (b: Book) {
    book[mod := Readers(book, mod) + {fd}]
  }

  /** The entry of a module goes with its last reader. */
  function Unsubscribe(book: Book, mod: Mod, fd: Fd): (b: Book) {
    if mod !in book then book
    else if book[mod] - {fd} == {} then book - {mod}
    else book[mod := book[mod] - {fd}]
  }

  function UnsubscribeAll(book: Book, mods: set<Mod>, fd: Fd): (b: Book) {
    map mod | mod in book && !(mod in mods && book[mod] - {fd} == {}) ::
      if mod in mods then book[mod] - {fd} else book[mod]
  }

  /** Which changed modules a descriptor reads. */
  function Affected(book: Book, changes: set<Mod>, fd: Fd): (mods: set<Mod>) {
    set mod | mod in changes && fd in Readers(book, mod)
  }

  function Publish(book: Book, push: Push, changes: set<Mod>): (p: Push) {
    map fd | fd in push.Keys + (set mod, fd | mod in changes && mod in book && fd in book[mod] :: fd) ::
      Pending(push, fd) + Affected(book, changes, fd)
  }

  /** What a module key becomes when a push takes it apart into two signed fields and the
      receiver packs it again. */
  function Repack(mod: Mod): (m: Mod) {
    Pack(ToInt32(HighWord(mod)), ToInt32(LowWord(mod)))
  }

  lemma PublishMeans(book: Book, push: Push, changes: set<Mod>, fd: Fd)
    ensures Pending(Publish(book, push, changes), fd) == Pending(push, fd) + Affected(book, changes, fd)
  {}

  lemma UnsubscribeAllMeans(book: Book, mods: set<Mod>, fd: Fd, mod: Mod)
    ensures Readers(UnsubscribeAll(book, mods, fd), mod) == Readers(book, mod) - (if mod in mods then {fd} else {})
  {}

  /** A push reaches the module it was made for if and only if the low field of the key
      is not negative. */
  lemma RepackIff(modid: Int32, cmdid: Int32)
    ensures Repack(Pack(modid, cmdid)) == Pack(modid, cmdid) <==> cmdid >= 0
  {
    hide Pack, ToInt32, HighWord, LowWord;
    UnpackModuleIff(modid, cmdid);
    if cmdid < 0 {
      var mod := Pack(modid, cmdid);
      if Repack(mod) == mod {
        PackInjective(ToInt32(HighWord(mod)), ToInt32(LowWord(mod)), modid, cmdid);
      }
    }
  }
}
