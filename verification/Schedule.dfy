/** The exact order in which a balancer hands out its hosts while no report or update
    intervenes. */
module Schedule {
  import opened LbSpec

  /** The number of idle picks between two probes of an overloaded host. */
  function Probe(cfg: Config): (p: nat) {
    if cfg.probeNum >= 0 then cfg.probeNum else 0
  }

  /** The state after k choices, and what the next one returns. */
  function After(cfg: Config, lb: Lb, k: nat): (lb': Lb) {
    if k == 0 then lb else Choose(cfg, After(cfg, lb, k - 1)).0
  }

  function Nth(cfg: Config, lb: Lb, k: nat): (c: Choice) {
    Choose(cfg, After(cfg, lb, k)).1
  }

  function Rotate<T>(s: seq<T>, j: nat): (r: seq<T>) {
    if s == [] then [] else s[j % |s|..] + s[..j % |s|]
  }

  lemma RotateStep<T>(s: seq<T>, j: nat)
    requires s != []
    ensures var r := Rotate(s, j);
            |r| == |s| && r[0] == s[j % |s|] && r[1..] + [r[0]] == Rotate(s, j + 1)
  {
    var n, i := |s|, j % |s|;
    NextMod(j, n);
    if i + 1 < n {
      assert Rotate(s, j)[1..] == s[i + 1..] + s[..i];
      assert s[..i + 1] == s[..i] + [s[i]];
    } else {
      assert Rotate(s, j)[1..] == s[..i];
      assert s == s[..i] + [s[i]];
    }
  }

  lemma NextMod(j: nat, n: nat)
    requires n > 0
    ensures (j + 1) % n == if j % n + 1 < n then j % n + 1 else 0
    ensures (j + 1) / n == if j % n + 1 < n then j / n else j / n + 1
  {
    var q, i := j / n, j % n;
    assert j + 1 == q * n + (i + 1);
    if i + 1 < n {
      DivModUnique(j + 1, n, q, i + 1);
    } else {
      DivModUnique(j + 1, n, q + 1, 0);
    }
  }

  lemma DivModUnique(x: int, n: int, q: int, r: int)
    requires n > 0 && x == q * n + r && 0 <= r < n
    ensures x / n == q && x % n == r
  {
    var q', r' := x / n, x % n;
    SameQuotient(n, q, r, q', r');
  }

  lemma SameQuotient(n: int, q: int, r: int, q': int, r': int)
    requires n > 0 && q * n + r == q' * n + r' && 0 <= r < n && 0 <= r' < n
    ensures q == q' && r == r'
  {
    if q > q' {
      MulAtLeast(q - q', n);
    } else if q < q' {
      MulAtLeast(q' - q, n);
    }
  }

  lemma MulAtLeast(d: int, n: int)
    requires d >= 1 && n >= 1
    ensures d * n >= n
  {
    assert d * n == (d - 1) * n + n;
  }

  /** The state after q whole blocks of `Probe + 1` choices and r more. */
  function Scheduled(cfg: Config, lb: Lb, q: nat, r: nat): (lb': Lb) {
    lb.(idle := Rotate(lb.idle, q * Probe(cfg) + r), over := Rotate(lb.over, q), accessCnt := r)
  }

  /** What the choice in that state returns. */
  function ScheduledChoice(cfg: Config, lb: Lb, q: nat, r: nat): (c: Choice)
    requires lb.over != []
  {
    if r == Probe(cfg) then Picked(lb.over[q % |lb.over|])
    else if lb.idle == [] then AllOverloaded
    else Picked(lb.idle[(q * Probe(cfg) + r) % |lb.idle|])
  }

  lemma OneChoice(cfg: Config, lb: Lb, q: nat, r: nat)
    requires lb.over != [] && r <= Probe(cfg)
    ensures var c := Choose(cfg, Scheduled(cfg, lb, q, r));
            && c.1 == ScheduledChoice(cfg, lb, q, r)
            && c.0 == if r == Probe(cfg) then Scheduled(cfg, lb, q + 1, 0) else Scheduled(cfg, lb, q, r + 1)
  {
    hide Rotate;
    var p := Probe(cfg);
    RotateStep(lb.over, q);
    if lb.idle != [] {
      RotateStep(lb.idle, q * p + r);
    } else {
      RotateNothing<Key>(q * p + r);
      RotateNothing<Key>(q * p + r + 1);
      RotateNothing<Key>((q + 1) * p);
    }
    assert (q + 1) * p + 0 == q * p + p;
  }

  lemma RotateNothing<T>(j: nat)
    ensures Rotate<T>([], j) == []
  {}

  /** The exact schedule: with at least one overloaded host and the counter at 0, the
      k-th choice falls into block q = k / (probe_num + 1) at place r. The last place of
      a block probes the overloaded host q modulo their number; every other place takes
      the idle hosts in turn, or reports overload when there are none. */
  lemma ExactSchedule(cfg: Config, lb: Lb, k: nat)
    requires lb.over != [] && lb.accessCnt == 0
    ensures var q, r := k / (Probe(cfg) + 1), k % (Probe(cfg) + 1);
            && After(cfg, lb, k) == Scheduled(cfg, lb, q, r)
            && Nth(cfg, lb, k) == ScheduledChoice(cfg, lb, q, r)
  {
    hide Choose, Scheduled, ScheduledChoice, After;
    var p := Probe(cfg);
    var q, r := k / (p + 1), k % (p + 1);
    ScheduleAt(cfg, lb, k, q, r);
    OneChoice(cfg, lb, q, r);
  }

  lemma {:induction false} ScheduleAt(cfg: Config, lb: Lb, k: nat, q: nat, r: nat)
    requires lb.over != [] && lb.accessCnt == 0
    requires r <= Probe(cfg) && k == q * (Probe(cfg) + 1) + r
    ensures After(cfg, lb, k) == Scheduled(cfg, lb, q, r)
    decreases k
  {
    hide Choose, Scheduled, ScheduledChoice;
    var p := Probe(cfg);
    if q == 0 && r == 0 {
      StartOfSchedule(cfg, lb);
    } else if r > 0 {
      ScheduleAt(cfg, lb, k - 1, q, r - 1);
      OneChoice(cfg, lb, q, r - 1);
    } else {
      assert k - 1 == (q - 1) * (p + 1) + p;
      ScheduleAt(cfg, lb, k - 1, q - 1, p);
      OneChoice(cfg, lb, q - 1, p);
    }
  }

  lemma StartOfSchedule(cfg: Config, lb: Lb)
    requires lb.accessCnt == 0
    ensures Scheduled(cfg, lb, 0, 0) == lb
  {}

  lemma OneTurn(cfg: Config, lb: Lb, k: nat)
    requires lb.over == [] && lb.idle != []
    ensures Choose(cfg, lb.(idle := Rotate(lb.idle, k)))
         == (lb.(idle := Rotate(lb.idle, k + 1)), Picked(lb.idle[k % |lb.idle|]))
  {
    hide Rotate;
    RotateStep(lb.idle, k);
  }

  /** With no overloaded host the choices go round the idle queue: from any state the
      k-th one is the host at k modulo their number, so n consecutive choices are each
      host exactly once and lead back to the same state. */
  lemma {:induction false} RoundRobin(cfg: Config, lb: Lb, k: nat)
    requires lb.over == [] && lb.idle != []
    ensures After(cfg, lb, k) == lb.(idle := Rotate(lb.idle, k))
    ensures Nth(cfg, lb, k) == Picked(lb.idle[k % |lb.idle|])
    ensures k == |lb.idle| ==> After(cfg, lb, k) == lb
  {
    hide Rotate, Choose;
    RotateByNone(lb.idle);
    if k == 0 {
    } else {
      RoundRobin(cfg, lb, k - 1);
      OneTurn(cfg, lb, k - 1);
    }
    OneTurn(cfg, lb, k);
  }

  lemma RotateByNone<T>(s: seq<T>)
    ensures Rotate(s, 0) == s && Rotate(s, |s|) == s
  {}

  /** What n choices in a row return, from the j-th on. */
  function Picks(cfg: Config, lb: Lb, j: nat, n: nat): (cs: seq<Choice>) {
    seq(n, i requires 0 <= i < n => Nth(cfg, lb, j + i))
  }

  function AllPicked(ks: seq<Key>): (cs: seq<Choice>) {
    seq(|ks|, i requires 0 <= i < |ks| => Picked(ks[i]))
  }

  /** Fairness: wherever it starts, as many choices in a row as there are hosts return each
      host exactly once. */
  lemma EachOnce(cfg: Config, lb: Lb, j: nat)
    requires lb.over == [] && lb.idle != []
    ensures multiset(Picks(cfg, lb, j, |lb.idle|)) == multiset(AllPicked(lb.idle))
  {
    hide Rotate, Nth;
    var n, all := |lb.idle|, AllPicked(lb.idle);
    RotateSame(all, j);
    forall i | 0 <= i < n ensures Picks(cfg, lb, j, n)[i] == Rotate(all, j)[i] {
      RoundRobin(cfg, lb, j + i);
      RotateAt(all, j, i);
    }
    assert Picks(cfg, lb, j, n) == Rotate(all, j);
  }

  lemma RotateAt<T>(s: seq<T>, j: nat, i: nat)
    requires i < |s|
    ensures |Rotate(s, j)| == |s| && Rotate(s, j)[i] == s[(j + i) % |s|]
  {
    var n, r := |s|, j % |s|;
    var q := j / n;
    assert j + i == q * n + (r + i);
    if r + i < n {
      DivModUnique(j + i, n, q, r + i);
    } else {
      assert j + i == (q + 1) * n + (r + i - n);
      DivModUnique(j + i, n, q + 1, r + i - n);
    }
  }

  lemma RotateSame<T>(s: seq<T>, j: nat)
    requires s != []
    ensures |Rotate(s, j)| == |s| && multiset(Rotate(s, j)) == multiset(s)
  {
    var r := j % |s|;
    assert s == s[..r] + s[r..];
  }
}
