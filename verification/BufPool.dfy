/** The buffer pool: one singly linked free list per size class. */
module BufPool {
  import opened Words
  import opened Framing
  import opened IoBuf

  const M4K := 4096
  const M16K := 16384
  const M64K := 65536
  const M256K := 262144
  const M1M := 1048576
  const M4M := 4194304
  const M8M := 8388608

  /** In KB. */
  const MEM_LIMIT := 5 * 1024 * 1024

  function Classes(): (cs: set<nat>) {
    {M4K, M16K, M64K, M256K, M1M, M4M, M8M}
  }

  lemma SevenClasses()
    ensures M4K in Classes() && M16K in Classes() && M64K in Classes() && M256K in Classes()
    ensures M1M in Classes() && M4M in Classes() && M8M in Classes()
  {}

  /** The least size class that holds `n` bytes. */
  function SizeClass(n: int): (c: nat)
    requires n <= M8M
    ensures c in Classes() && n <= c
    ensures forall d | d in Classes() && n <= d :: c <= d
  {
    if n <= M4K then M4K
    else if n <= M16K then M16K
    else if n <= M64K then M64K
    else if n <= M256K then M256K
    else if n <= M1M then M1M
    else if n <= M4M then M4M
    else M8M
  }

  /** How a request for room ends: no buffer is large enough, the memory limit is reached,
      or there is a buffer of this capacity and this much memory in use. */
  datatype Stage = Full | Spent | Fitted(cap: nat, mem: nat)

  /** What becomes of a holder that has `length` bytes in a buffer of capacity `held`, or
      no buffer if that is 0, and needs room for `need` more, when `mem` KB are in use and
      the lists of the classes in `dry` are empty. */
  function Fit(dry: set<nat>, mem: nat, held: nat, length: nat, need: nat): (s: Stage) {
    if held > 0 && held - length >= need then Fitted(held, mem)
    else if length + need > M8M then Full
    else
      var c := SizeClass(length + need);
      if c !in dry then Fitted(c, mem)
      else if mem + c / 1024 >= MEM_LIMIT then Spent
      else Fitted(c, mem + c / 1024)
  }

  /** Only lists of classes above the present buffer matter. */
  lemma FitAgrees(dry: set<nat>, dry': set<nat>, mem: nat, held: nat, length: nat, need: nat)
    requires held > 0 && forall c | c > held :: c in dry <==> c in dry'
    ensures Fit(dry, mem, held, length, need) == Fit(dry', mem, held, length, need)
  {}

  /** The capacities of some buffers, in KB. */
  ghost function SumKb(bs: seq<Buffer>): (kb: nat) {
    if bs == [] then 0 else SumKb(bs[..|bs| - 1]) + bs[|bs| - 1].capacity / 1024
  }

  lemma SumKbPush(bs: seq<Buffer>, b: Buffer)
    ensures SumKb(bs + [b]) == SumKb(bs) + b.capacity / 1024
  {}

  ghost predicate Distinct(bs: seq<Buffer>) {
    forall i, j | 0 <= i < j < |bs| :: bs[i] != bs[j]
  }

  /** `nodes` are the nodes of the list that starts at `first`, in order. */
  ghost predicate Chain(first: Buffer?, nodes: seq<Buffer>)
    reads nodes
  {
    && (nodes == [] ==> first == null)
    && (nodes != [] ==> first == nodes[0] && nodes[|nodes| - 1].next == null)
    && (forall i | 0 <= i < |nodes| - 1 :: nodes[i].next == nodes[i + 1])
  }

  /** A free list: an acyclic chain of reset buffers. */
  ghost predicate FreeList(first: Buffer?, nodes: seq<Buffer>)
    reads nodes
  {
    && Chain(first, nodes)
    && Distinct(nodes)
    && (forall b | b in nodes :: b.length == 0 && b.head == 0)
  }

  /** No two buffers share an array. */
  ghost predicate OwnArrays(bs: seq<Buffer>) {
    && (forall b | b in bs :: b.data.Length == b.capacity)
    && (forall b, b' | b in bs && b' in bs && b.data == b'.data :: b == b')
  }

  /** The pool's books: the free lists, the free nodes as a set, the buffers held by
      clients, and all buffers ever made. Free and handed-out buffers partition the
      buffers made, and each list holds the free buffers of its own capacity. */
  datatype Books = Books(free: map<nat, seq<Buffer>>, nodes: set<Buffer>, out: set<Buffer>, made: seq<Buffer>) {
    ghost predicate Listed() {
      && free.Keys <= Classes()
      && (forall c, b | c in free && b in free[c] :: b in nodes && b.capacity == c)
      && (forall b | b in nodes :: b.capacity in free && b in free[b.capacity])
      && (forall b | b in out :: b.capacity in free)
    }

    ghost predicate Partition() {
      && nodes !! out
      && (forall b | b in made :: b in nodes || b in out)
      && (forall b | b in nodes :: b in made)
      && (forall b | b in out :: b in made)
      && Distinct(made)
      && OwnArrays(made)
    }

    ghost predicate Balanced() { Listed() && Partition() }

    ghost function Grow(b: Buffer): (bk: Books) {
      this.(out := out + {b}, made := made + [b])
    }

    ghost function Take(c: nat): (bk: Books)
      requires c in free && free[c] != []
    {
      Books(free[c := free[c][1..]], nodes - {free[c][0]}, out + {free[c][0]}, made)
    }

    ghost function Revert(b: Buffer): (bk: Books)
      requires b.capacity in free
    {
      Books(free[b.capacity := [b] + free[b.capacity]], nodes + {b}, out - {b}, made)
    }

    /** The classes whose list is empty. */
    ghost function Dry(): (cs: set<nat>) {
      set c | c in free && free[c] == []
    }

    lemma GrowBalanced(b: Buffer)
      requires Balanced() && b !in made && b.capacity in free && b.data.Length == b.capacity
      requires forall b' | b' in made :: b'.data != b.data
      ensures Grow(b).Balanced()
    {}

    lemma TakeBalanced(c: nat)
      requires Balanced() && c in free && free[c] != [] && Distinct(free[c])
      ensures Take(c).Balanced()
      ensures var b := free[c][0];
              b in nodes && b !in out && b.capacity == c == b.data.Length
    {
      hide Partition, OwnArrays;
      NodesOwn(free[c][0]);
      assert Take(c).Listed();
      TakePartition(c);
    }

    /** A new list of new buffers. */
    ghost function Make(c: nat, list: seq<Buffer>): (bk: Books) {
      Books(free[c := list], nodes + (set b | b in list), out, made + list)
    }

    lemma MakeBalanced(c: nat, list: seq<Buffer>)
      requires Balanced() && c !in free && c in Classes()
      requires Distinct(list) && OwnArrays(list)
      requires forall b | b in list :: b !in made && b.capacity == c
      requires forall b, b' | b in list && b' in made :: b.data != b'.data
      ensures Make(c, list).Balanced()
    {
      var bk := Make(c, list);
      assert bk.Listed();
      forall i, j | 0 <= i < j < |bk.made| ensures bk.made[i] != bk.made[j] {
        if i < |made| <= j { assert bk.made[i] in made && bk.made[j] in list; }
      }
    }

    lemma NodesOwn(b: Buffer)
      requires Balanced() && (b in nodes || b in out)
      ensures b.data.Length == b.capacity && (b !in nodes || b !in out)
    {}

    lemma DistinctArrays(b: Buffer, b': Buffer)
      requires Balanced() && b in out && b' in out && b != b'
      ensures b.data != b'.data
    {}

    /** The array of a held buffer is no other buffer's. */
    lemma HeldApart(b: Buffer)
      requires Balanced() && b in out
      ensures b !in nodes
      ensures forall b' | b' in nodes || b' in out :: b' != b ==> b'.data != b.data
    {
      hide Listed;
      assert forall b' | b' in nodes || b' in out :: b' in made;
    }

    lemma ListedNodes()
      requires Balanced()
      ensures forall c, b | c in free && b in free[c] :: b in nodes
    {}

    lemma TakePartition(c: nat)
      requires Balanced() && c in free && free[c] != []
      ensures Take(c).Partition()
    {}

    lemma RevertBalanced(b: Buffer)
      requires Balanced() && b in out
      ensures b.capacity in free && Revert(b).Balanced()
    {}

    lemma RevertDry(b: Buffer)
      requires b.capacity in free
      ensures forall d | d != b.capacity :: d in Revert(b).Dry() <==> d in Dry()
    {}

    lemma OthersApart(b: Buffer, c: nat)
      requires Balanced() && c in free && (b.capacity != c || b in out)
      ensures b !in free[c]
    {}
  }

  datatype Allocation = Got(buf: Buffer) | TooBig | Exit

  class Pool {
    var pool: map<nat, Buffer?>
    var totalMem: nat
    ghost var books: Books

    ghost predicate Lists()
      reads this, books.nodes
    {
      && pool.Keys == books.free.Keys
      && (forall c | c in pool :: (forall b | b in books.free[c] :: b in books.nodes) && FreeList(pool[c], books.free[c]))
    }

    /** Every free list is an acyclic chain of reset buffers of its own capacity; free
        and handed-out buffers partition the buffers ever made; the memory count is
        the sum of their capacities and below the limit. */
    ghost predicate Valid()
      reads this, books.nodes
    {
      && books.Balanced()
      && Lists()
      && totalMem == SumKb(books.made) < MEM_LIMIT
    }

    /** All seven lists have been set up. */
    ghost predicate Ready()
      reads this, books.nodes
    {
      Valid() && pool.Keys == Classes()
    }

    /** The pool a process starts with. */
    constructor ()
      ensures Ready() && books.out == {} && totalMem == 334240
    {
      pool, books, totalMem := map[], Books(map[], {}, {}, []), 0;
      new;
      assert Valid();
      hide *;
      SmallLists();
      LargeLists();
      Complete();
    }

    /** The four small classes. */
    method SmallLists()
      requires Valid() && pool == map[] && totalMem == 0
      modifies this
      ensures Valid() && M4K in pool && M16K in pool && M64K in pool && M256K in pool
      ensures (forall c | c in pool :: c <= M256K) && totalMem == 119200 && books.out == old(books.out)
    {
      hide Valid, Classes;
      SevenClasses();
      MakeNext(M4K, 5000, 20000);
      MakeNext(M16K, 1000, 16000);
      MakeNext(M64K, 500, 32000);
      MakeNext(M256K, 200, 51200);
    }

    /** The three large classes. */
    method LargeLists()
      requires Valid() && (forall c | c in pool :: c <= M256K) && totalMem == 119200
      modifies this
      ensures Valid() && M1M in pool && M4M in pool && M8M in pool && (forall c | c in old(pool) :: c in pool)
      ensures totalMem == 334240 && books.out == old(books.out)
    {
      hide Valid, Classes;
      SevenClasses();
      MakeNext(M1M, 50, 51200);
      MakeNext(M4M, 20, 81920);
      MakeNext(M8M, 10, 81920);
    }

    lemma Complete()
      requires Valid() && M4K in pool && M16K in pool && M64K in pool && M256K in pool
      requires M1M in pool && M4M in pool && M8M in pool
      ensures Ready()
    {}

    /** The constructor sets the lists up in ascending order. */
    method MakeNext(cap: nat, num: nat, ghost kb: nat)
      requires Valid() && cap in Classes() && num >= 1
      requires forall c | c in pool :: c < cap
      requires kb == cap / 1024 * num && totalMem + kb < MEM_LIMIT
      modifies this
      ensures Valid()
      ensures cap in pool && (forall c | c in old(pool) :: c in pool) && (forall c | c in pool :: c <= cap)
      ensures books.out == old(books.out) && totalMem == old(totalMem) + kb
    {
      hide Valid, Classes, Books.Make;
      MakeList(cap, num);
    }

    /** Sets up the list of one size class with `num` new buffers. */
    method MakeList(cap: nat, num: nat)
      requires Valid() && cap in Classes() && cap !in pool && num >= 1
      requires totalMem + cap / 1024 * num < MEM_LIMIT
      modifies this
      ensures Valid()
      ensures pool.Keys == old(pool.Keys) + {cap}
      ensures |books.free[cap]| == num
      ensures books == old(books).Make(cap, books.free[cap]) && books.out == old(books.out)
      ensures totalMem == old(totalMem) + cap / 1024 * num
    {
      hide Classes, FreeList, SumKb, OwnArrays, Books.Balanced, Books.Listed, Books.Partition;
      var first := new Buffer(cap);
      SingletonList(first);
      ghost var nodes := [first];
      ghost var made := books.made;
      var prev := first;
      SumKbPush(made, first);
      for i := 1 to num
        invariant unchanged(this) && Valid()
        invariant fresh(prev) && |nodes| == i && prev == nodes[i - 1]
        invariant FreeList(first, nodes) && OwnArrays(nodes)
        invariant forall b | b in nodes :: fresh(b) && fresh(b.data) && b.capacity == cap
        invariant SumKb(made + nodes) == SumKb(made) + cap / 1024 * i
      {
        var b := AppendNew(first, nodes, prev, cap);
        SumKbPush(made + nodes, b);
        assert made + nodes + [b] == made + (nodes + [b]);
        nodes, prev := nodes + [b], b;
      }
      totalMem := totalMem + cap / 1024 * num;
      pool := pool[cap := first];
      ListDistinct(first, nodes);
      books.MakeBalanced(cap, nodes);
      books := books.Make(cap, nodes);
      books.ListedNodes();
    }

    twostate lemma Unaffected()
      requires old(Ready()) && unchanged(this) && unchanged(books.nodes)
      ensures Ready()
    {}

    lemma IsBalanced()
      requires Ready()
      ensures books.Balanced()
      ensures forall b | b in books.out :: b !in books.nodes && M4K <= b.capacity <= M8M
    {}

    /** Gives out the first buffer of the least class that holds `n` bytes, or a new
        one when that list is empty; the process exits at the memory limit. */
    method Alloc(n: int) returns (r: Allocation)
      requires Ready()
      modifies this, books.nodes`next
      ensures Ready()
      ensures r.TooBig? <==> n > M8M
      ensures r.Exit? <==> n <= M8M && SizeClass(n) in old(books).Dry()
                           && old(totalMem) + SizeClass(n) / 1024 >= MEM_LIMIT
      ensures !r.Got? ==> unchanged(this)
      ensures r.Got? ==>
                var b, c := r.buf, SizeClass(n);
                && b.capacity == c && b.next == null
                && b.Valid() && b.View() == [] && b.head == 0
                && b !in old(books).out && books.out == old(books).out + {b}
                && books.nodes == old(books).nodes - {b}
                && (b in old(books).nodes || (fresh(b) && fresh(b.data)))
                && totalMem == old(totalMem) + (if c in old(books).Dry() then c / 1024 else 0)
                && (forall d | d != c :: d in books.Dry() <==> d in old(books).Dry())
                && if c in old(books).Dry() then fresh(b) && fresh(b.data) && books == old(books).Grow(b)
                   else b == old(books).free[c][0] && books == old(books).Take(c)
    {
      hide Classes, FreeList, SumKb, Books.Balanced, Books.Listed, Books.Partition;
      if n > M8M { return TooBig; }
      var index := SizeClass(n);
      EmptyList(pool[index], books.free[index]);
      if pool[index] == null {
        if totalMem + index / 1024 >= MEM_LIMIT { return Exit; }
        var newBuf := Grow(index);
        return Got(newBuf);
      }
      var target := TakeFirst(index);
      return Got(target);
    }

    method Grow(index: nat) returns (b: Buffer)
      requires Ready() && index in pool
      requires totalMem + index / 1024 < MEM_LIMIT
      modifies this
      ensures Ready() && books == old(books).Grow(b) && totalMem == old(totalMem) + index / 1024
      ensures fresh(b) && fresh(b.data) && b.capacity == index && b.next == null
      ensures b.Valid() && b.View() == [] && b.head == 0
      ensures b !in old(books).out && b !in old(books).nodes
    {
      hide Classes, FreeList, SumKb, Books.Balanced, Books.Listed, Books.Partition;
      b := new Buffer(index);
      SumKbPush(books.made, b);
      books.GrowBalanced(b);
      totalMem := totalMem + index / 1024;
      books := books.Grow(b);
    }

    method TakeFirst(index: nat) returns (target: Buffer)
      requires Ready() && index in pool && books.free[index] != []
      modifies this, books.nodes`next
      ensures Ready() && books == old(books).Take(index) && totalMem == old(totalMem)
      ensures target == old(books).free[index][0] && target.next == null && target.capacity == index
      ensures target.Valid() && target.View() == [] && target.head == 0
      ensures target !in old(books).out && target in old(books).nodes
    {
      hide Classes, FreeList, SumKb, Books.Balanced, Books.Listed, Books.Partition;
      EmptyList(pool[index], books.free[index]);
      target := pool[index];
      ListUncons(target, books.free[index]);
      books.TakeBalanced(index);
      pool := pool[index := target.next];
      books := books.Take(index);
      books.ListedNodes();
      target.next := null;
      forall c | c in pool && c != index ensures FreeList(pool[c], books.free[c]) {
        old(books).OthersApart(target, c);
      }
    }

    /** Puts a buffer a client holds back at the front of its list, reset. */
    method Revert(b: Buffer)
      requires Ready() && b in books.out
      modifies this, b`length, b`head, b`next
      ensures Ready() && books == old(books).Revert(b)
      ensures books.out == old(books).out - {b} && books.nodes == old(books).nodes + {b}
      ensures totalMem == old(totalMem)
      ensures forall d | d != b.capacity :: d in books.Dry() <==> d in old(books).Dry()
    {
      hide Classes, FreeList, SumKb, Books.Balanced, Books.Listed, Books.Partition, Books.Dry;
      var index := b.capacity;
      books.RevertBalanced(b);
      books.RevertDry(b);
      books.OthersApart(b, index);
      b.length, b.head := 0, 0;
      b.next := pool[index];
      ListCons(b, books.free[index]);
      pool := pool[index := b];
      books := books.Revert(b);
      books.ListedNodes();
      forall c | c in pool && c != index ensures FreeList(pool[c], books.free[c]) {
        old(books).OthersApart(b, c);
      }
    }
  }

  /** Links a new buffer behind the last node. */
  method AppendNew(ghost first: Buffer, ghost nodes: seq<Buffer>, prev: Buffer, cap: nat) returns (b: Buffer)
    requires FreeList(first, nodes) && nodes != [] && prev == nodes[|nodes| - 1] && OwnArrays(nodes)
    modifies prev`next
    ensures fresh(b) && fresh(b.data) && b.capacity == cap
    ensures FreeList(first, nodes + [b]) && OwnArrays(nodes + [b])
  {
    b := new Buffer(cap);
    prev.next := b;
  }

  lemma SingletonList(b: Buffer)
    requires b.next == null && b.length == 0 && b.head == 0 && b.data.Length == b.capacity
    ensures FreeList(b, [b]) && OwnArrays([b])
  {}

  lemma ListDistinct(first: Buffer?, nodes: seq<Buffer>)
    requires FreeList(first, nodes)
    ensures Distinct(nodes)
  {}

  lemma ListUncons(first: Buffer, nodes: seq<Buffer>)
    requires FreeList(first, nodes)
    ensures nodes != [] && first == nodes[0] && first !in nodes[1..] && Distinct(nodes)
    ensures first.length == 0 && first.head == 0
    ensures FreeList(first.next, nodes[1..])
  {}

  lemma ListCons(first: Buffer, nodes: seq<Buffer>)
    requires FreeList(first.next, nodes) && first !in nodes
    requires first.length == 0 && first.head == 0
    ensures FreeList(first, [first] + nodes)
  {}

  lemma EmptyList(first: Buffer?, nodes: seq<Buffer>)
    requires FreeList(first, nodes)
    ensures first == null <==> nodes == []
  {}
}
