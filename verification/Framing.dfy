/** The wire format of the reactor: frames with an eight-byte header, what the
    receive loop of a connection makes of a byte stream cut into arbitrary read
    chunks, and what a send does to the output buffer. */
module Framing {
  import opened Words

  const HEAD_LEN := 8
  const LENGTH_LIMIT := 65535 - 8
  const MAX_BUF := 8388608
  /** The longest input that can be left over after a read: one byte short of the longest frame. */
  const MAX_LEFT := HEAD_LEN + LENGTH_LIMIT - 1

  type Bytes = seq<Byte>

  datatype RawMessage = Message(msgid: Int32, body: Bytes)
  /** The length of a body is passed as a 32-bit `int`. */
  type Message = m: RawMessage | |m.body| < 0x8000_0000 witness Message(0, [])

  function Header(msgid: Int32, msglen: Int32): (h: Bytes)
    ensures |h| == HEAD_LEN
  {
    EncodeInt(msgid) + EncodeInt(msglen)
  }

  function Frame(m: Message): (f: Bytes)
    ensures |f| == HEAD_LEN + |m.body|
  {
    Header(m.msgid, |m.body|) + m.body
  }

  /** The layout on the wire: the message id in the first four bytes and the length of the
      body in the next four, each with its least significant byte first, then the body. */
  lemma FrameLayout(m: Message)
    ensures var f := Frame(m);
            && f[0] as int + f[1] as int * 0x100 + f[2] as int * 0x1_0000 + f[3] as int * 0x100_0000 == m.msgid % 0x1_0000_0000
            && f[4] as int + f[5] as int * 0x100 + f[6] as int * 0x1_0000 + f[7] as int * 0x100_0000 == |m.body|
            && f[8..] == m.body
  {
    hide EncodeInt;
    EncodeIntWeighs(m.msgid);
    EncodeIntWeighs(|m.body|);
  }

  /** The bytes of a sequence of messages, one frame after the other. */
  function Stream(ms: seq<Message>): (bs: Bytes) {
    if ms == [] then [] else Frame(ms[0]) + Stream(ms[1..])
  }

  function MsgId(bs: Bytes): (r: Int32) requires |bs| >= HEAD_LEN { DecodeInt(bs[..4]) }
  function MsgLen(bs: Bytes): (r: Int32) requires |bs| >= HEAD_LEN { DecodeInt(bs[4..8]) }

  /** A message the receiver takes: its length is within the limit. */
  predicate Fits(m: Message) { |m.body| <= LENGTH_LIMIT }
  predicate AllFit(ms: seq<Message>) { forall m | m in ms :: Fits(m) }
  predicate NoEmptyBody(ms: seq<Message>) { forall m | m in ms :: m.body != [] }

  predicate BadHeader(bs: Bytes) {
    |bs| >= HEAD_LEN && !(0 <= MsgLen(bs) <= LENGTH_LIMIT)
  }

  /** An incomplete frame: too short for a header, or for the body it announces. */
  predicate Incomplete(bs: Bytes) {
    |bs| < HEAD_LEN || (0 <= MsgLen(bs) <= LENGTH_LIMIT && |bs| < HEAD_LEN + MsgLen(bs))
  }

  // ---------------------------------------------------------------- frames

  lemma FrameHeader(m: Message, rest: Bytes)
    ensures MsgId(Frame(m) + rest) == m.msgid
    ensures MsgLen(Frame(m) + rest) == |m.body|
    ensures (Frame(m) + rest)[HEAD_LEN..HEAD_LEN + |m.body|] == m.body
    ensures (Frame(m) + rest)[HEAD_LEN + |m.body|..] == rest
  {
    var bs := Frame(m) + rest;
    assert bs[..4] == EncodeInt(m.msgid);
    assert bs[4..8] == EncodeInt(|m.body|);
    DecodeEncodeInt(m.msgid);
    DecodeEncodeInt(|m.body|);
  }

  /** The header bytes and the body they announce are the frame of that message. */
  lemma FrameOfPrefix(bs: Bytes)
    requires |bs| >= HEAD_LEN && 0 <= MsgLen(bs) && HEAD_LEN + MsgLen(bs) <= |bs|
    ensures var m: Message := Message(MsgId(bs), bs[HEAD_LEN..HEAD_LEN + MsgLen(bs)]);
            Frame(m) + bs[HEAD_LEN + MsgLen(bs)..] == bs
  {
    EncodeDecodeInt(bs[..4]);
    EncodeDecodeInt(bs[4..8]);
    assert bs == bs[..4] + bs[4..8] + bs[8..8 + MsgLen(bs)] + bs[8 + MsgLen(bs)..];
  }

  lemma {:induction false} StreamAppend(a: seq<Message>, b: seq<Message>)
    ensures Stream(a + b) == Stream(a) + Stream(b)
  {
    if a == [] {
      assert a + b == b;
    } else {
      assert (a + b)[1..] == a[1..] + b;
      StreamAppend(a[1..], b);
    }
  }

  lemma StreamPushFront(m: Message, ms: seq<Message>, rest: Bytes)
    ensures Stream([m] + ms) + rest == Frame(m) + (Stream(ms) + rest)
  {}

  lemma StreamSnoc(ms: seq<Message>, m: Message)
    ensures Stream(ms + [m]) == Stream(ms) + Frame(m)
  {
    StreamAppend(ms, [m]);
    assert Stream([m]) == Frame(m);
  }

  // ---------------------------------------------------------------- reference decoder

  datatype Decoded = Decoded(msgs: seq<Message>, rest: Bytes, bad: bool)

  /** The reference decoder: split off complete frames until a bad header or an
      incomplete frame remains. */
  function Decode(bs: Bytes): (d: Decoded)
    decreases |bs|
  {
    if BadHeader(bs) then Decoded([], bs, true)
    else if Incomplete(bs) then Decoded([], bs, false)
    else
      var n := HEAD_LEN + MsgLen(bs);
      var d := Decode(bs[n..]);
      Decoded([Message(MsgId(bs), bs[HEAD_LEN..n])] + d.msgs, d.rest, d.bad)
  }

  /** What `Decode` returns, without naming its steps: a split of the input into
      whole frames within the limit and a remainder that starts no such frame. */
  lemma {:induction false} DecodeSplits(bs: Bytes)
    ensures var d := Decode(bs);
            && Stream(d.msgs) + d.rest == bs
            && AllFit(d.msgs)
            && d.bad == BadHeader(d.rest)
            && (d.bad || Incomplete(d.rest))
    decreases |bs|
  {
    hide EncodeInt, DecodeInt, Frame;
    if BadHeader(bs) || Incomplete(bs) {
    } else {
      var n := HEAD_LEN + MsgLen(bs);
      var m: Message := Message(MsgId(bs), bs[HEAD_LEN..n]);
      FrameOfPrefix(bs);
      DecodeSplits(bs[n..]);
      StreamPushFront(m, Decode(bs[n..]).msgs, Decode(bs[n..]).rest);
    }
  }

  /** ... and that split is the only one. */
  lemma {:induction false} DecodeUnique(ms: seq<Message>, rest: Bytes)
    requires AllFit(ms)
    requires BadHeader(rest) || Incomplete(rest)
    ensures Decode(Stream(ms) + rest) == Decoded(ms, rest, BadHeader(rest))
  {
    hide EncodeInt, DecodeInt, Frame;
    if ms == [] {
      assert Stream(ms) + rest == rest;
    } else {
      var m, tail := ms[0], Stream(ms[1..]) + rest;
      assert ms == [m] + ms[1..] && Fits(m);
      StreamPushFront(m, ms[1..], rest);
      FrameHeader(m, tail);
      DecodeUnique(ms[1..], rest);
      assert !BadHeader(Frame(m) + tail) && !Incomplete(Frame(m) + tail);
    }
  }

  /** Decoding can stop anywhere and resume from what was left over. */
  lemma DecodeResumes(a: Bytes, b: Bytes)
    ensures var d := Decode(a);
            var e := Decode(d.rest + b);
            Decode(a + b) == if d.bad then Decoded(d.msgs, d.rest + b, true)
                             else Decoded(d.msgs + e.msgs, e.rest, e.bad)
  {
    hide Decode, EncodeInt, DecodeInt, Frame, Stream;
    var d := Decode(a);
    DecodeSplits(a);
    assert a + b == Stream(d.msgs) + (d.rest + b);
    if d.bad {
      assert (d.rest + b)[4..8] == d.rest[4..8];
      DecodeUnique(d.msgs, d.rest + b);
    } else {
      var e := Decode(d.rest + b);
      DecodeSplits(d.rest + b);
      StreamAppend(d.msgs, e.msgs);
      DecodeUnique(d.msgs + e.msgs, e.rest);
      assert a + b == Stream(d.msgs + e.msgs) + e.rest;
    }
  }

  // ---------------------------------------------------------------- the receive loop

  datatype End = Waiting | Closed | Aborted

  datatype Drained = Drained(msgs: seq<Message>, rest: Bytes, end: End)

  /** The receive loop of a connection over the bytes it has buffered. Popping the
      header of an empty body that ends the buffer releases the buffer, and the pop
      of the body then fails its assertion: the process aborts after the dispatch. */
  function Drain(bs: Bytes): (d: Drained)
    decreases |bs|
  {
    if |bs| < HEAD_LEN then Drained([], bs, Waiting)
    else if BadHeader(bs) then Drained([], [], Closed)
    else if Incomplete(bs) then Drained([], bs, Waiting)
    else
      var n := HEAD_LEN + MsgLen(bs);
      var m := Message(MsgId(bs), bs[HEAD_LEN..n]);
      if |bs| == HEAD_LEN then Drained([m], [], Aborted)
      else
        var d := Drain(bs[n..]);
        Drained([m] + d.msgs, d.rest, d.end)
  }

  /** The bytes end with a complete frame whose body is empty. */
  predicate EndsInEmptyFrame(bs: Bytes) {
    var d := Decode(bs);
    !d.bad && d.rest == [] && d.msgs != [] && d.msgs[|d.msgs| - 1].body == []
  }

  /** The loop dispatches exactly the reference decoding, and it aborts if and only
      if the buffered bytes end in an empty frame. */
  lemma {:induction false} DrainMeetsDecode(bs: Bytes)
    ensures Drain(bs).msgs == Decode(bs).msgs
    ensures Drain(bs).end == Aborted <==> EndsInEmptyFrame(bs)
    ensures Drain(bs).end == Closed <==> Decode(bs).bad
    ensures Drain(bs).rest == if Decode(bs).bad then [] else Decode(bs).rest
    decreases |bs|
  {
    if BadHeader(bs) || Incomplete(bs) {
    } else {
      var n := HEAD_LEN + MsgLen(bs);
      DrainMeetsDecode(bs[n..]);
      var d := Decode(bs[n..]);
      if |bs| == HEAD_LEN {
        assert d == Decoded([], [], false);
      } else if d.msgs == [] {
        assert d.rest == bs[n..];
      } else {
        var msgs := Decode(bs).msgs;
        assert msgs[|msgs| - 1] == d.msgs[|d.msgs| - 1];
      }
    }
  }

  /** What the framing layer of a receiving connection has done so far. */
  datatype Receiver = Receiver(dispatched: seq<Message>, left: Bytes, end: End)

  const FRESH_RECEIVER := Receiver([], [], Waiting)

  /** One readable event that delivers `chunk`; an empty chunk is end of stream,
      and a chunk that finds no buffer closes the connection. */
  function ReadChunk(r: Receiver, chunk: Bytes): (r': Receiver) {
    if r.end != Waiting then r
    else if chunk == [] || |r.left| + |chunk| > MAX_BUF then Receiver(r.dispatched, [], Closed)
    else
      var d := Drain(r.left + chunk);
      Receiver(r.dispatched + d.msgs, d.rest, d.end)
  }

  function Receive(chunks: seq<Bytes>): (r: Receiver) {
    if chunks == [] then FRESH_RECEIVER
    else ReadChunk(Receive(chunks[..|chunks| - 1]), chunks[|chunks| - 1])
  }

  function Flatten(chunks: seq<Bytes>): (bs: Bytes) {
    if chunks == [] then []
    else Flatten(chunks[..|chunks| - 1]) + chunks[|chunks| - 1]
  }

  /** Chunks a socket can deliver: not empty, and leaving room for the longest leftover. */
  predicate Deliverable(chunks: seq<Bytes>) {
    forall c | c in chunks :: 0 < |c| <= MAX_BUF - MAX_LEFT
  }

  /** Some read stops exactly behind an empty frame. */
  predicate CutsAfterEmptyFrame(chunks: seq<Bytes>) {
    && chunks != []
    && (EndsInEmptyFrame(Flatten(chunks)) || CutsAfterEmptyFrame(chunks[..|chunks| - 1]))
  }

  lemma {:induction false} NoCut(chunks: seq<Bytes>, whole: Bytes)
    requires Flatten(chunks) <= whole
    requires forall bs | bs <= whole :: !EndsInEmptyFrame(bs)
    ensures !CutsAfterEmptyFrame(chunks)
  {
    if chunks == [] {
    } else {
      NoCut(chunks[..|chunks| - 1], whole);
    }
  }

  lemma IncompleteBound(bs: Bytes)
    requires Incomplete(bs)
    ensures |bs| <= MAX_LEFT
  {}

  /** What the loop leaves in the buffer is shorter than the longest frame. */
  lemma DrainBound(bs: Bytes)
    requires Drain(bs).end == Waiting
    ensures |Drain(bs).rest| <= MAX_LEFT
  {
    hide Drain, Decode, Incomplete;
    DrainMeetsDecode(bs);
    DecodeSplits(bs);
    IncompleteBound(Decode(bs).rest);
  }

  lemma DecodeNothing()
    ensures Decode([]) == Decoded([], [], false)
  {}

  /** For every byte stream and every way of cutting it into reads: the receiver
      aborts if and only if some read stops exactly behind an empty frame, and
      otherwise its state is the reference decoding of the whole stream, however
      it was cut. */
  lemma {:induction false} ChunkingTheorem(chunks: seq<Bytes>)
    requires Deliverable(chunks)
    ensures Receive(chunks).end == Aborted <==> CutsAfterEmptyFrame(chunks)
    ensures Receive(chunks).end != Aborted ==>
              var d := Decode(Flatten(chunks));
              && Receive(chunks).dispatched == d.msgs
              && (Receive(chunks).end == Closed <==> d.bad)
              && Receive(chunks).left == (if d.bad then [] else d.rest)
    ensures |Receive(chunks).left| <= MAX_LEFT
  {
    hide Decode, Drain, Stream, Frame, BadHeader, Incomplete;
    if chunks == [] {
      DecodeNothing();
    } else {
      var n := |chunks|;
      var init, c := chunks[..n - 1], chunks[n - 1];
      ChunkingTheorem(init);
      var r := Receive(init);
      var bs := Flatten(init);
      if r.end == Waiting {
        DecodeResumes(bs, c);
        DrainMeetsDecode(r.left + c);
        DecodeSplits(r.left + c);
        EmptyFrameResumes(bs, c);
        if Drain(r.left + c).end == Waiting { IncompleteBound(Drain(r.left + c).rest); }
      } else if r.end == Closed {
        DecodeResumes(bs, c);
        assert !EndsInEmptyFrame(bs + c);
      }
    }
  }

  lemma EmptyFrameResumes(a: Bytes, b: Bytes)
    requires !Decode(a).bad && b != []
    ensures EndsInEmptyFrame(a + b) <==> EndsInEmptyFrame(Decode(a).rest + b)
  {
    hide Decode, Frame, BadHeader, Incomplete;
    var d := Decode(a);
    var e := Decode(d.rest + b);
    DecodeResumes(a, b);
    DecodeSplits(d.rest + b);
    if e.msgs == [] {
      assert e.rest == d.rest + b != [] by { assert Stream([]) == []; }
    } else {
      var all := d.msgs + e.msgs;
      assert all[|all| - 1] == e.msgs[|e.msgs| - 1];
    }
  }

  // ---------------------------------------------------------------- round trip

  /** After k messages, `left` is a proper prefix of the next frame, or nothing at the end. */
  ghost predicate ProperPrefixOfNext(left: Bytes, ms: seq<Message>, k: nat) {
    if k < |ms| then left < Frame(ms[k]) else left == []
  }

  lemma StrictPrefixIncomplete(left: Bytes, m: Message)
    requires left < Frame(m) && Fits(m)
    ensures Incomplete(left)
  {}

  /** Any prefix of a stream consists of some whole frames and a proper prefix of the next. */
  lemma {:induction false} CutStream(ms: seq<Message>, bs: Bytes) returns (k: nat, left: Bytes)
    requires bs <= Stream(ms)
    ensures k <= |ms| && bs == Stream(ms[..k]) + left && ProperPrefixOfNext(left, ms, k)
  {
    hide Frame;
    if ms == [] {
      k, left := 0, [];
    } else if |bs| < |Frame(ms[0])| {
      k, left := 0, bs;
      assert left == Stream(ms)[..|bs|] == Frame(ms[0])[..|bs|];
    } else {
      var f := Frame(ms[0]);
      assert bs[..|f|] == Stream(ms)[..|f|] == f;
      assert bs[|f|..] <= Stream(ms[1..]) by {
        assert Stream(ms)[|f|..] == Stream(ms[1..]);
        assert bs[|f|..] == Stream(ms)[..|bs|][|f|..] == Stream(ms)[|f|..][..|bs| - |f|];
      }
      k, left := CutStream(ms[1..], bs[|f|..]);
      k := k + 1;
      assert ms[..k][1..] == ms[1..][..k - 1];
      assert bs == f + bs[|f|..];
      assert bs == Stream(ms[..k]) + left;
    }
  }

  /** The framing round trip. Whatever part of the stream of some messages has
      arrived, and however it was cut into reads, the receiver has dispatched
      exactly the messages that arrived completely, in order, and keeps a proper
      prefix of the next frame. */
  lemma RoundTrip(ms: seq<Message>, chunks: seq<Bytes>)
    requires AllFit(ms) && NoEmptyBody(ms)
    requires Deliverable(chunks) && Flatten(chunks) <= Stream(ms)
    ensures var r := Receive(chunks);
            && r.end == Waiting
            && r.dispatched <= ms
            && Stream(r.dispatched) + r.left == Flatten(chunks)
            && ProperPrefixOfNext(r.left, ms, |r.dispatched|)
    ensures Flatten(chunks) == Stream(ms) ==> Receive(chunks) == Receiver(ms, [], Waiting)
  {
    hide Decode, Stream, Frame, Receive, Flatten, Deliverable, EndsInEmptyFrame;
    ChunkingTheorem(chunks);
    PrefixDecodes(ms, Flatten(chunks));
    forall bs | bs <= Stream(ms) ensures !EndsInEmptyFrame(bs) {
      PrefixDecodes(ms, bs);
    }
    NoCut(chunks, Stream(ms));
    if Flatten(chunks) == Stream(ms) {
      DecodeUnique(ms, []);
      assert Stream(ms) + [] == Stream(ms);
    }
  }

  lemma PrefixDecodes(ms: seq<Message>, bs: Bytes)
    requires AllFit(ms) && bs <= Stream(ms)
    ensures var d := Decode(bs);
            && !d.bad && d.msgs <= ms
            && Stream(d.msgs) + d.rest == bs
            && ProperPrefixOfNext(d.rest, ms, |d.msgs|)
    ensures NoEmptyBody(ms) ==> !EndsInEmptyFrame(bs)
  {
    var k, left := CutStream(ms, bs);
    if k < |ms| { StrictPrefixIncomplete(left, ms[k]); }
    DecodeUnique(ms[..k], left);
  }

  /** The i-th chunk is the i-th frame. */
  function Frames(ms: seq<Message>): (chunks: seq<Bytes>)
    ensures |chunks| == |ms|
    ensures forall i | 0 <= i < |ms| :: chunks[i] == Frame(ms[i])
  {
    seq(|ms|, i requires 0 <= i < |ms| => Frame(ms[i]))
  }

  lemma {:induction false} FlattenFrames(ms: seq<Message>)
    ensures Flatten(Frames(ms)) == Stream(ms)
  {
    if ms == [] {
    } else {
      var init, m := ms[..|ms| - 1], ms[|ms| - 1];
      assert Frames(ms)[..|ms| - 1] == Frames(init);
      FlattenFrames(init);
      StreamSnoc(init, m);
      assert init + [m] == ms;
    }
  }

  lemma FramesDeliver(ms: seq<Message>, after: seq<Message>)
    requires AllFit(ms)
    ensures Deliverable(Frames(ms)) && Flatten(Frames(ms)) == Stream(ms) <= Stream(ms + after)
  {
    hide Flatten, Stream, Frame;
    forall c | c in Frames(ms) ensures 0 < |c| <= MAX_BUF - MAX_LEFT {
      var i :| 0 <= i < |ms| && c == Frame(ms[i]);
      assert Fits(ms[i]);
    }
    FlattenFrames(ms);
    StreamAppend(ms, after);
  }

  lemma EmptyBodyEnds(ms: seq<Message>)
    requires AllFit(ms) && ms != [] && ms[|ms| - 1].body == []
    ensures EndsInEmptyFrame(Stream(ms))
  {
    hide Decode, Stream, Frame;
    DecodeUnique(ms, []);
    assert Stream(ms) + [] == Stream(ms);
  }

  /** Delivered one frame per read, the stream aborts its receiver at an empty body. */
  lemma FrameByFrameAborts(ms: seq<Message>, after: seq<Message>)
    requires AllFit(ms) && ms != [] && ms[|ms| - 1].body == []
    ensures Deliverable(Frames(ms)) && Flatten(Frames(ms)) <= Stream(ms + after)
    ensures Receive(Frames(ms)).end == Aborted
  {
    hide Flatten, Frames, Stream, Receive, EndsInEmptyFrame, Deliverable;
    FramesDeliver(ms, after);
    EmptyBodyEnds(ms);
    ChunkingTheorem(Frames(ms));
  }

  /** A sender is safe from aborting its peer under every chunking if and only if
      it never sends an empty body. */
  lemma SafeUnderEveryChunkingIff(ms: seq<Message>)
    requires AllFit(ms)
    ensures NoEmptyBody(ms) <==>
            forall chunks | Deliverable(chunks) && Flatten(chunks) <= Stream(ms) ::
              Receive(chunks).end != Aborted
  {
    hide Decode, Drain, Stream, Frame, Receive, Flatten, Deliverable, Frames;
    if NoEmptyBody(ms) {
      forall chunks | Deliverable(chunks) && Flatten(chunks) <= Stream(ms)
        ensures Receive(chunks).end != Aborted
      {
        RoundTrip(ms, chunks);
      }
    } else {
      var k :| 0 <= k < |ms| && ms[k].body == [];
      var some, after := ms[..k + 1], ms[k + 1..];
      assert ms == some + after;
      FrameByFrameAborts(some, after);
    }
  }

  /** A message over the limit closes the receiver after exactly the messages before it. */
  lemma OversizeStops(ms: seq<Message>, big: Message, after: Bytes, chunks: seq<Bytes>)
    requires AllFit(ms) && NoEmptyBody(ms) && !Fits(big)
    requires Deliverable(chunks) && Flatten(chunks) == Stream(ms) + Frame(big) + after
    ensures Receive(chunks).dispatched == ms && Receive(chunks).end == Closed
  {
    hide Decode, Stream, Frame, Receive, Flatten, Deliverable, EndsInEmptyFrame;
    var rest := Frame(big) + after;
    var bs := Stream(ms) + rest;
    assert Flatten(chunks) == bs;
    FrameHeader(big, after);
    DecodeUnique(ms, rest);
    ChunkingTheorem(chunks);
    forall b | b <= bs ensures !EndsInEmptyFrame(b) {
      NoEmptyFrameBefore(ms, rest, b);
    }
    NoCut(chunks, bs);
  }

  lemma NoEmptyFrameBefore(ms: seq<Message>, rest: Bytes, bs: Bytes)
    requires AllFit(ms) && NoEmptyBody(ms) && BadHeader(rest) && bs <= Stream(ms) + rest
    ensures !EndsInEmptyFrame(bs)
  {
    var whole := Stream(ms) + rest;
    DecodeUnique(ms, rest);
    var b := whole[|bs|..];
    assert bs + b == whole;
    DecodeResumes(bs, b);
    var d := Decode(bs);
    if !d.bad && d.msgs != [] {
      assert d.msgs[|d.msgs| - 1] in ms by { assert d.msgs <= ms; }
    }
  }

  // ---------------------------------------------------------------- sending

  /** `aligned` says that the window still starts at the front of its buffer, which
      the next send and the next write assert. */
  datatype Sent = Sent(obuf: Bytes, ok: bool, aligned: bool)

  /** What sending a message does to an aligned output buffer: the header goes in
      first, and when no buffer is large enough for the body as well, eight bytes are
      popped from the front. */
  function Send(obuf: Bytes, m: Message): (s: Sent) {
    var withHead := obuf + Header(m.msgid, |m.body|);
    if |withHead| > MAX_BUF then Sent(obuf, false, true)
    else if |withHead| + |m.body| > MAX_BUF then Sent(withHead[HEAD_LEN..], false, obuf == [])
    else Sent(obuf + Frame(m), true, true)
  }

  /** The send meets a buffer that takes the header and then not the body. */
  predicate HeaderOnlyFits(obuf: Bytes, m: Message) {
    obuf != [] && |obuf| + HEAD_LEN <= MAX_BUF < |obuf| + HEAD_LEN + |m.body|
  }

  /** A send is accepted if and only if the whole frame fits, and then it is appended. A
      failed send rolls back to the state before it if and only if the buffer was
      empty or already too full for the header: otherwise the roll-back pops the
      oldest bytes instead of the header just appended. The old contents are then
      gone for every buffer that is not a repetition of that header. */
  lemma RollbackIff(obuf: Bytes, m: Message)
    ensures var s := Send(obuf, m);
            && (s.ok <==> |obuf| + HEAD_LEN + |m.body| <= MAX_BUF)
            && (s.ok ==> s == Sent(obuf + Frame(m), true, true))
            && (!s.ok ==> (s.obuf == obuf && s.aligned <==> !HeaderOnlyFits(obuf, m)))
            && (HeaderOnlyFits(obuf, m) && obuf[|obuf| - 1] != Header(m.msgid, |m.body|)[7] ==> s.obuf != obuf)
  {}
}
