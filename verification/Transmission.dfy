/** A sending and a receiving connection joined by a socket, over whole runs:
    sends, writes of which the kernel takes any prefix, and reads that return any
    prefix of what is in flight, in any order. */
module Transmission {
  import opened Words
  import opened Framing

  datatype Link = Link(accepted: seq<Message>, obuf: Bytes, aligned: bool, aborted: bool,
                       inFlight: Bytes, rx: Receiver)

  datatype Event = SendMessage(m: Message) | DoWrite(n: nat) | DoRead(n: nat)

  const IDLE_LINK := Link([], [], true, false, [], FRESH_RECEIVER)

  function Min(a: nat, b: nat): (r: nat) { if a <= b then a else b }

  /** A send or a write on a misaligned output buffer fails an assertion. */
  function Step(l: Link, e: Event): (l': Link) {
    if l.aborted then l
    else if !e.DoRead? && !l.aligned then l.(aborted := true)
    else match e
    case SendMessage(m) =>
      var s := Send(l.obuf, m);
      l.(obuf := s.obuf, aligned := s.aligned, accepted := if s.ok then l.accepted + [m] else l.accepted)
    case DoWrite(n) =>
      var k := Min(n, |l.obuf|);
      l.(obuf := l.obuf[k..], inFlight := l.inFlight + l.obuf[..k])
    case DoRead(n) =>
      var k := Min(Min(n, |l.inFlight|), MAX_BUF - MAX_LEFT);
      if k == 0 then l
      else l.(inFlight := l.inFlight[k..], rx := ReadChunk(l.rx, l.inFlight[..k]))
  }

  function Run(es: seq<Event>): (l: Link) {
    if es == [] then IDLE_LINK else Step(Run(es[..|es| - 1]), es[|es| - 1])
  }

  /** What a caller checks before a send: the body is neither empty nor over the
      limit, and the buffer does not have room for the header alone. */
  predicate Allowed(l: Link, e: Event) {
    e.SendMessage? ==>
      && 0 < |e.m.body| <= LENGTH_LIMIT
      && !HeaderOnlyFits(l.obuf, e.m)
  }

  ghost predicate AllowedRun(es: seq<Event>) {
    forall i | 0 <= i < |es| :: Allowed(Run(es[..i]), es[i])
  }

  /** Every accepted byte is dispatched, left over, in flight or still buffered, in
      this order, and the receiver holds exactly the decoding of what reached it. */
  ghost predicate Conserved(l: Link) {
    && AllFit(l.accepted) && NoEmptyBody(l.accepted)
    && l.aligned && !l.aborted && l.rx.end == Waiting
    && Decode(Stream(l.rx.dispatched) + l.rx.left) == Decoded(l.rx.dispatched, l.rx.left, false)
    && Stream(l.accepted) == Stream(l.rx.dispatched) + l.rx.left + l.inFlight + l.obuf
    && |l.rx.left| <= MAX_LEFT
    && |l.obuf| <= MAX_BUF
  }

  lemma SendConserves(l: Link, m: Message)
    requires Conserved(l) && Allowed(l, SendMessage(m))
    ensures Conserved(Step(l, SendMessage(m)))
  {
    hide Stream, Decode, Frame;
    var l' := Step(l, SendMessage(m));
    if Send(l.obuf, m).ok {
      StreamSnoc(l.accepted, m);
      var before := Stream(l.rx.dispatched) + l.rx.left + l.inFlight;
      assert before + l.obuf + Frame(m) == before + (l.obuf + Frame(m));
    }
  }

  lemma WriteConserves(l: Link, n: nat)
    requires Conserved(l)
    ensures Conserved(Step(l, DoWrite(n)))
  {
    hide Stream, Decode;
    var k := Min(n, |l.obuf|);
    var before := Stream(l.rx.dispatched) + l.rx.left;
    assert before + l.inFlight + l.obuf == before + (l.inFlight + l.obuf[..k]) + l.obuf[k..];
  }

  lemma ReadConserves(l: Link, n: nat)
    requires Conserved(l)
    ensures Conserved(Step(l, DoRead(n)))
  {
    hide Stream, Decode, Drain;
    var k := Min(Min(n, |l.inFlight|), MAX_BUF - MAX_LEFT);
    if k != 0 {
      var c, after := l.inFlight[..k], l.inFlight[k..] + l.obuf;
      var bs := Stream(l.rx.dispatched) + l.rx.left;
      assert Stream(l.accepted) == (bs + c) + after;
      ReadStep(l.accepted, l.rx, c);
      var d := Drain(l.rx.left + c);
      assert Stream(l.rx.dispatched + d.msgs) + d.rest + l.inFlight[k..] + l.obuf == (bs + c) + after;
    }
  }

  lemma ReadStep(ms: seq<Message>, rx: Receiver, c: Bytes)
    requires AllFit(ms) && NoEmptyBody(ms)
    requires rx.end == Waiting && c != []
    requires Decode(Stream(rx.dispatched) + rx.left) == Decoded(rx.dispatched, rx.left, false)
    requires Stream(rx.dispatched) + rx.left + c <= Stream(ms)
    ensures var d := Drain(rx.left + c);
            var all := rx.dispatched + d.msgs;
            && d.end == Waiting
            && Stream(all) + d.rest == Stream(rx.dispatched) + rx.left + c
            && Decode(Stream(all) + d.rest) == Decoded(all, d.rest, false)
            && |d.rest| <= MAX_LEFT
  {
    hide Stream, Decode, Drain, Incomplete;
    var bs := Stream(rx.dispatched) + rx.left;
    PrefixDecodes(ms, bs + c);
    DecodeResumes(bs, c);
    EmptyFrameResumes(bs, c);
    DrainMeetsDecode(rx.left + c);
    DecodeSplits(bs + c);
    IncompleteBound(Decode(bs + c).rest);
  }

  /** Conservation holds in every state of every allowed run. */
  lemma {:induction false} RunConserves(es: seq<Event>)
    requires AllowedRun(es)
    ensures Conserved(Run(es))
  {
    if es == [] {
      DecodeNothing();
      assert Stream([]) + [] == [];
    } else {
      var init, e := es[..|es| - 1], es[|es| - 1];
      forall i | 0 <= i < |init| ensures Allowed(Run(init[..i]), init[i]) {
        assert init[..i] == es[..i] && init[i] == es[i];
      }
      RunConserves(init);
      assert Allowed(Run(init), e);
      match e
      case SendMessage(m) => SendConserves(Run(init), m);
      case DoWrite(n) => WriteConserves(Run(init), n);
      case DoRead(n) => ReadConserves(Run(init), n);
    }
  }

  /** What the caller's check is for: after a send that finds room for the header
      alone, the next send or write aborts the process; after any other send it
      does not. */
  lemma NextAbortsIff(l: Link, m: Message, e: Event)
    requires Conserved(l) && !e.DoRead?
    ensures Step(Step(l, SendMessage(m)), e).aborted <==> HeaderOnlyFits(l.obuf, m)
  {}

  // ---------------------------------------------------------------- a run that gets there

  /** n sends of the same message and nothing else. */
  function Sends(m: Message, n: nat): (es: seq<Event>) { seq(n, _ => SendMessage(m)) }

  lemma OneFits(l: Link, m: Message)
    requires l.aligned && !l.aborted && |l.obuf| + HEAD_LEN + |m.body| <= MAX_BUF && 0 < |m.body| <= LENGTH_LIMIT
    ensures Allowed(l, SendMessage(m))
    ensures var l' := Step(l, SendMessage(m));
            && |l'.obuf| == |l.obuf| + HEAD_LEN + |m.body| && l'.aligned && !l'.aborted
            && l'.accepted == l.accepted + [m]
  {}

  lemma {:induction false} Filled(m: Message, n: nat)
    requires |m.body| == LENGTH_LIMIT && n <= 128
    ensures AllowedRun(Sends(m, n))
    ensures var l := Run(Sends(m, n));
            |l.obuf| == n * 65535 && l.aligned && !l.aborted
  {
    hide Step, Allowed;
    if n == 0 {
    } else {
      var es, init := Sends(m, n), Sends(m, n - 1);
      assert es == init + [SendMessage(m)];
      Filled(m, n - 1);
      assert forall i | 0 <= i < n - 1 :: es[..i] == init[..i] && es[i] == init[i];
      OneFits(Run(init), m);
      assert es[..n - 1] == init;
    }
  }

  /** 128 messages of the largest size and no write leave room for a header and not for a
      body: the next send fails, and the write or the send after it aborts the process. */
  lemma FullBufferAborts(m: Message, e: Event)
    requires |m.body| == LENGTH_LIMIT && !e.DoRead?
    ensures AllowedRun(Sends(m, 128)) && HeaderOnlyFits(Run(Sends(m, 128)).obuf, m)
    ensures Run(Sends(m, 128) + [SendMessage(m), e]).aborted
  {
    hide Run, Step, Sends, AllowedRun, Conserved;
    Filled(m, 128);
    RunConserves(Sends(m, 128));
    NextAbortsIff(Run(Sends(m, 128)), m, e);
    RunSnoc(Sends(m, 128), SendMessage(m));
    RunSnoc(Sends(m, 128) + [SendMessage(m)], e);
    assert Sends(m, 128) + [SendMessage(m), e] == Sends(m, 128) + [SendMessage(m)] + [e];
  }

  lemma RunSnoc(es: seq<Event>, e: Event)
    ensures Run(es + [e]) == Step(Run(es), e)
  {
    assert (es + [e])[..|es|] == es;
  }

  /** End to end: at every point of every allowed run the peer has dispatched a
      prefix of the accepted messages, and all of them once nothing is buffered or
      in flight. */
  lemma Delivery(es: seq<Event>)
    requires AllowedRun(es)
    ensures var l := Run(es);
            && l.rx.dispatched <= l.accepted
            && (l.obuf == [] && l.inFlight == [] ==> l.rx.dispatched == l.accepted && l.rx.left == [])
  {
    hide Run, Stream, Decode, AllowedRun;
    var l := Run(es);
    RunConserves(es);
    var bs := Stream(l.rx.dispatched) + l.rx.left;
    assert bs <= Stream(l.accepted) by {
      assert Stream(l.accepted) == bs + (l.inFlight + l.obuf);
    }
    PrefixDecodes(l.accepted, bs);
    if l.obuf == [] && l.inFlight == [] {
      assert bs == Stream(l.accepted);
      DecodeUnique(l.accepted, []);
      assert Stream(l.accepted) + [] == Stream(l.accepted);
    }
  }

  // ---------------------------------------------------------------- progress

  /** n reads of one byte each. */
  function Reads(n: nat): (es: seq<Event>) { seq(n, _ => DoRead(1)) }

  lemma AllowedSnoc(es: seq<Event>, e: Event)
    requires AllowedRun(es) && !e.SendMessage?
    ensures AllowedRun(es + [e])
  {
    var all := es + [e];
    forall i | 0 <= i < |all| ensures Allowed(Run(all[..i]), all[i]) {
      if i < |es| { assert all[..i] == es[..i] && all[i] == es[i]; }
    }
  }

  /** As many reads as there are bytes in flight take them all. */
  lemma {:induction false} ReadsArrive(es: seq<Event>, n: nat)
    requires AllowedRun(es) && n <= |Run(es).inFlight|
    ensures AllowedRun(es + Reads(n))
    ensures var l, l' := Run(es), Run(es + Reads(n));
            l'.inFlight == l.inFlight[n..] && l'.obuf == l.obuf && l'.accepted == l.accepted
  {
    hide AllowedRun, Run, ReadChunk;
    if n == 0 {
      assert es + Reads(0) == es;
    } else {
      ReadsArrive(es, n - 1);
      var before := es + Reads(n - 1);
      assert es + Reads(n) == before + [DoRead(1)];
      AllowedSnoc(before, DoRead(1));
      RunSnoc(before, DoRead(1));
      RunConserves(before);
      OneByte(Run(before));
    }
  }

  lemma OneByte(l: Link)
    requires !l.aborted && l.inFlight != []
    ensures var l' := Step(l, DoRead(1));
            l'.inFlight == l.inFlight[1..] && l'.obuf == l.obuf && l'.accepted == l.accepted
  {}

  /** Nothing is stuck: from every state of every allowed run, one write and enough reads
      deliver every message that was accepted. */
  lemma Progress(es: seq<Event>)
    requires AllowedRun(es)
    ensures var l := Run(es);
            var es' := es + [DoWrite(|l.obuf|)] + Reads(|l.inFlight| + |l.obuf|);
            AllowedRun(es') && Run(es').rx.dispatched == Run(es').accepted == l.accepted
  {
    hide AllowedRun, Run, Conserved;
    var l, e := Run(es), DoWrite(|Run(es).obuf|);
    RunConserves(es);
    AllowedSnoc(es, e);
    RunSnoc(es, e);
    WriteAll(l);
    ReadsArrive(es + [e], |l.inFlight| + |l.obuf|);
    Delivery(es + [e] + Reads(|l.inFlight| + |l.obuf|));
  }

  lemma WriteAll(l: Link)
    requires Conserved(l)
    ensures var l' := Step(l, DoWrite(|l.obuf|));
            l'.obuf == [] && l'.inFlight == l.inFlight + l.obuf && l'.accepted == l.accepted
  {
    hide Decode, Stream;
  }
}
