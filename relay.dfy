/** The relay of `src/net/passthrough.rs` on values. One direction of the
    relay is a `Lane`: what the source peer will still reply to reads, the
    bytes read from it so far, the queue of that direction's circular buffer,
    what the destination peer will still reply to writes, the bytes it has
    accepted so far, and the direction's dump counter. The functions below
    say what a drain round, a flush, a readiness event and a run of events do
    to the two lanes and to the printed transcript; the methods of
    `Passthroughs` are proved to do exactly that, and the lemmas here state
    what follows: no byte is lost, duplicated or reordered, the queue never
    outgrows the buffer, and the drain loop ends only where the code says. */
module Relays {
  import opened Numerals
  import opened DataOutputs

  datatype IoResult<T> = Ok(value: T) | Err

  /** What a peer does with the next read: hand over bytes (none at all means
      end of stream) or fail. */
  datatype ReadReply = Bytes(data: seq<bv8>) | ReadFailed

  /** What a peer does with the next write: accept at most `count` bytes, or fail. */
  datatype WriteReply = Accepted(count: nat) | WriteFailed

  /** Bytes still to come from the first reply of a script. */
  function HeadSize(replies: seq<ReadReply>): nat
  {
    if replies != [] && replies[0].Bytes? then |replies[0].data| else 0
  }

  /** `after` is strictly further along than `before`: fewer replies left, or
      as many with fewer bytes left in the first one. */
  predicate Consumed(after: seq<ReadReply>, before: seq<ReadReply>)
  {
    |after| < |before| || (|after| == |before| && HeadSize(after) < HeadSize(before))
  }

  /** Every byte a peer's read script still holds, in order. */
  function Pending(replies: seq<ReadReply>): seq<bv8>
  {
    if replies == [] then []
    else (if replies[0].Bytes? then replies[0].data else []) + Pending(replies[1..])
  }

  datatype ReadOutcome = ReadOutcome(got: IoResult<seq<bv8>>, rest: seq<ReadReply>)

  /** A socket read into a slice of `len` bytes from a peer whose next
      replies are `replies`: the bytes that fit are handed over and the rest
      stay for the next read. An exhausted script stands for a read that
      would block, which is an error like any other. */
  function ReadFrom(replies: seq<ReadReply>, len: nat): (r: ReadOutcome)
    ensures r.got.Ok? <==> replies != [] && replies[0].Bytes?
    ensures r.got.Ok? ==> |r.got.value| == Min(len, HeadSize(replies))
    ensures r.got.Ok? && r.got.value != [] ==> Consumed(r.rest, replies)
  {
    if replies == [] then ReadOutcome(Err, [])
    else match replies[0]
      case ReadFailed => ReadOutcome(Err, replies[1..])
      case Bytes(d) =>
        var k := Min(len, |d|);
        ReadOutcome(Ok(d[..k]), (if k == |d| then [] else [Bytes(d[k..])]) + replies[1..])
  }

  /** A read takes the bytes it returns from the front of the script and
      loses none: what was returned followed by what the script still holds
      is what the script held. */
  lemma ReadTakesPending(replies: seq<ReadReply>, len: nat)
    ensures Got(ReadFrom(replies, len)) + Pending(ReadFrom(replies, len).rest) == Pending(replies)
  {
    var r := ReadFrom(replies, len);
    if replies != [] {
      match replies[0]
      case ReadFailed =>
        assert Pending(replies) == [] + Pending(replies[1..]);
      case Bytes(d) =>
        var k := Min(len, |d|);
        var p := Pending(replies[1..]);
        assert Pending(replies) == d + p;
        if k == |d| {
          assert r.rest == replies[1..];
          assert d[..k] == d;
        } else {
          var first := [Bytes(d[k..])];
          assert r.rest == first + replies[1..];
          assert r.rest[1..] == replies[1..];
          assert Pending(r.rest) == d[k..] + p;
          assert d[..k] + (d[k..] + p) == (d[..k] + d[k..]) + p;
          assert d[..k] + d[k..] == d;
        }
    }
  }

  datatype WriteOutcome = WriteOutcome(got: IoResult<nat>, rest: seq<WriteReply>)

  /** A socket write of `len` bytes to a peer whose next replies are
      `replies`: the peer takes at most what it is offered, or the write fails. */
  function WriteTo(replies: seq<WriteReply>, len: nat): (r: WriteOutcome)
    ensures r.got.Ok? <==> replies != [] && replies[0].Accepted?
    ensures r.got.Ok? ==> r.got.value <= len && r.got.value <= replies[0].count
    ensures r.got.Ok? && replies[0].count >= len ==> r.got.value == len
    ensures replies != [] ==> r.rest == replies[1..]
  {
    if replies == [] then WriteOutcome(Err, [])
    else match replies[0]
      case Accepted(n) => WriteOutcome(Ok(Min(n, len)), replies[1..])
      case WriteFailed => WriteOutcome(Err, replies[1..])
  }

  /** One direction of the relay (see the module comment). */
  datatype Lane = Lane(source: seq<ReadReply>, received: seq<bv8>, queue: seq<bv8>,
                       sink: seq<WriteReply>, sent: seq<bv8>, count: nat)

  /** Nothing lost, duplicated or reordered in a lane: the destination has
      been sent a prefix of what the source gave, and the rest is queued. */
  predicate InOrder(l: Lane)
  {
    l.sent + l.queue == l.received
  }

  /** The bytes read from the source of `l` so far and those its script
      still holds, together. */
  function Offered(l: Lane): seq<bv8>
  {
    l.received + Pending(l.source)
  }

  /** How a round of the drain loop ended. */
  datatype Progress = Continue | Done | Failed

  datatype Round = Round(progress: Progress, lane: Lane, lines: seq<string>)

  /** The bytes a read handed over: none when it failed. */
  function Got(rd: ReadOutcome): seq<bv8>
  {
    if rd.got.Ok? then rd.got.value else []
  }

  /** The reading half of a drain round (`passthrough.rs:55-65`): a read
      offering the buffer's free room. The bytes it brings are appended to
      what the source gave and to the queue, and counted; when there are
      any, their dump is printed followed by the backlog line, and a read
      error or a read of nothing ends the drain. */
  function ReadRound(l: Lane, cap: nat, isLeft: bool): (r: Round)
    requires |l.queue| <= cap
    ensures r.progress != Failed && |r.lane.queue| <= cap
    ensures r.progress == Continue <==>
              l.source != [] && l.source[0].Bytes? && Min(cap - |l.queue|, HeadSize(l.source)) > 0
    ensures var rd := ReadFrom(l.source, cap - |l.queue|);
            r.lane.source == rd.rest && r.lane.sink == l.sink && r.lane.sent == l.sent &&
            r.lane.received == l.received + Got(rd) && r.lane.queue == l.queue + Got(rd) &&
            r.lane.count == l.count + |Got(rd)|
    ensures r.progress == Done ==> Got(ReadFrom(l.source, cap - |l.queue|)) == [] && r.lines == []
    ensures r.progress == Continue ==>
              Consumed(r.lane.source, l.source) &&
              r.lines != [] && r.lines[0] == Header(isLeft, |Got(ReadFrom(l.source, cap - |l.queue|))|)
  {
    var rd := ReadFrom(l.source, cap - |l.queue|);
    var d := Got(rd);
    if d == [] then
      assert l.received + d == l.received && l.queue + d == l.queue;
      Round(Done, l.(source := rd.rest), [])
    else
      var q := l.queue + d;
      Round(Continue,
            l.(source := rd.rest, received := l.received + d, queue := q, count := l.count + |d|),
            [Header(isLeft, |d|)] + Dump(d, l.count) + [Backlog(isLeft, |q|)])
  }

  /** The round `ReadRound` describes for a read that brought nothing: only
      the script advances, and nothing is printed. */
  lemma ReadRoundIdle(l: Lane, cap: nat, isLeft: bool)
    requires |l.queue| <= cap && Got(ReadFrom(l.source, cap - |l.queue|)) == []
    ensures ReadRound(l, cap, isLeft) == Round(Done, l.(source := ReadFrom(l.source, cap - |l.queue|).rest), [])
  {
  }

  /** The round `ReadRound` describes, written out for a read that brought
      `d`, so that callers need not unfold it. */
  lemma ReadRoundIs(l: Lane, cap: nat, isLeft: bool, d: seq<bv8>)
    requires |l.queue| <= cap && d == Got(ReadFrom(l.source, cap - |l.queue|)) && d != []
    ensures ReadRound(l, cap, isLeft) ==
            Round(Continue,
                  l.(source := ReadFrom(l.source, cap - |l.queue|).rest, received := l.received + d,
                     queue := l.queue + d, count := l.count + |d|),
                  [Header(isLeft, |d|)] + Dump(d, l.count) + [Backlog(isLeft, |l.queue + d|)])
  {
  }

  datatype Flushed = Flushed(ok: bool, lane: Lane)

  /** `write_channel` on a lane (`passthrough.rs:150-163`): the whole queue is
      offered to the destination, and exactly the bytes it accepted leave the
      front of the queue; a failed write leaves the queue as it was. */
  function Flush(l: Lane): (f: Flushed)
    ensures f.ok <==> l.sink != [] && l.sink[0].Accepted?
    ensures f.lane.source == l.source && f.lane.received == l.received && f.lane.count == l.count
    ensures f.lane.sink == WriteTo(l.sink, |l.queue|).rest
    ensures f.lane.sent + f.lane.queue == l.sent + l.queue
    ensures l.sent <= f.lane.sent
    ensures f.ok ==> |f.lane.sent| == |l.sent| + Min(l.sink[0].count, |l.queue|)
    ensures !f.ok ==> f.lane.sent == l.sent && f.lane.queue == l.queue
  {
    var w := WriteTo(l.sink, |l.queue|);
    if w.got.Err? then Flushed(false, l.(sink := w.rest))
    else
      var k := w.got.value;
      Forwarded(l.sent, l.queue, k);
      Flushed(true, l.(sink := w.rest, sent := l.sent + l.queue[..k], queue := l.queue[k..]))
  }

  /** Forwarding the first `k` queued bytes moves them from the queue to the
      peer's log without changing their concatenation. */
  lemma Forwarded(sent: seq<bv8>, queue: seq<bv8>, k: nat)
    requires k <= |queue|
    ensures (sent + queue[..k]) + queue[k..] == sent + queue
  {
    assert queue == queue[..k] + queue[k..];
    AppendAssoc(sent, queue[..k], queue[k..]);
  }

  /** The rest of a drain round (`passthrough.rs:66-74`), and the flush of a
      writable event (`79-86`): a flush when the destination is writable,
      then, unless the write failed, the backlog line. */
  function FlushAndReport(l: Lane, isLeft: bool, dstWritable: bool): (r: Round)
    ensures r.progress != Done
    ensures r.progress == Failed <==> dstWritable && !Flush(l).ok
    ensures !dstWritable ==> r.lane == l
    ensures r.lane.source == l.source && r.lane.received == l.received && r.lane.count == l.count
    ensures r.lane.sent + r.lane.queue == l.sent + l.queue && l.sent <= r.lane.sent
    ensures |r.lane.queue| <= |l.queue|
  {
    if !dstWritable then Round(Continue, l, [Backlog(isLeft, |l.queue|)])
    else
      var f := Flush(l);
      if f.ok then Round(Continue, f.lane, [Backlog(isLeft, |f.lane.queue|)])
      else Round(Failed, f.lane, [])
  }

  /** One round of the drain loop of a readable event (`passthrough.rs:55-75`). */
  function DrainRound(l: Lane, cap: nat, isLeft: bool, dstWritable: bool): (r: Round)
    requires |l.queue| <= cap
    ensures |r.lane.queue| <= cap
    ensures r.progress == Done <==> ReadRound(l, cap, isLeft).progress == Done
    ensures r.progress != Done ==> Consumed(r.lane.source, l.source)
    ensures r.progress == Failed ==> dstWritable
    ensures !dstWritable ==> r.lane.sink == l.sink && r.lane.sent == l.sent
  {
    var rd := ReadRound(l, cap, isLeft);
    if rd.progress == Done then rd
    else
      var fl := FlushAndReport(rd.lane, isLeft, dstWritable);
      Round(fl.progress, fl.lane, rd.lines + fl.lines)
  }

  datatype Outcome = Outcome(result: IoResult<()>, lane: Lane, lines: seq<string>)

  /** The drain loop of a readable event (`passthrough.rs:55-75`): rounds
      until a read fails or brings nothing, which ends the loop without an
      error, or until a write fails, which is the error returned. */
  function DrainAll(l: Lane, cap: nat, isLeft: bool, dstWritable: bool): (o: Outcome)
    requires |l.queue| <= cap
    ensures |o.lane.queue| <= cap
    decreases |l.source|, HeadSize(l.source)
  {
    var r := DrainRound(l, cap, isLeft, dstWritable);
    match r.progress
    case Done => Outcome(Ok(()), r.lane, r.lines)
    case Failed => Outcome(Err, r.lane, r.lines)
    case Continue =>
      var o := DrainAll(r.lane, cap, isLeft, dstWritable);
      Outcome(o.result, o.lane, r.lines + o.lines)
  }

  /** The reading half of a round keeps its lane in order and takes its
      bytes from the front of the source's script. */
  lemma ReadRoundKeepsOrder(l: Lane, cap: nat, isLeft: bool)
    requires |l.queue| <= cap
    ensures var r := ReadRound(l, cap, isLeft);
      (InOrder(l) ==> InOrder(r.lane)) && Offered(r.lane) == Offered(l)
  {
    var rd := ReadFrom(l.source, cap - |l.queue|);
    var d := Got(rd);
    var after := l.(source := rd.rest, received := l.received + d, queue := l.queue + d, count := l.count + |d|);
    assert ReadRound(l, cap, isLeft).lane == after;
    calc {
      Offered(after);
      (l.received + d) + Pending(rd.rest);
      { AppendAssoc(l.received, d, Pending(rd.rest)); }
      l.received + (d + Pending(rd.rest));
      { ReadTakesPending(l.source, cap - |l.queue|); }
      Offered(l);
    }
    AppendAssoc(l.sent, l.queue, d);
  }

  /** A drain round keeps its lane in order and takes its bytes from the
      front of the source's script. */
  lemma RoundKeepsOrder(l: Lane, cap: nat, isLeft: bool, dstWritable: bool)
    requires |l.queue| <= cap
    ensures var r := DrainRound(l, cap, isLeft, dstWritable);
      (InOrder(l) ==> InOrder(r.lane)) && Offered(r.lane) == Offered(l) &&
      r.lane.count == l.count + (|r.lane.received| - |l.received|)
  {
    ReadRoundKeepsOrder(l, cap, isLeft);
  }

  /** The drain keeps its lane in order whatever the peers reply: the
      destination is sent a prefix of what the source gave and the rest stays
      queued. Every byte read comes from the front of the source's script,
      and the dump counter counts each of them. */
  lemma {:induction false} DrainKeepsOrder(l: Lane, cap: nat, isLeft: bool, dstWritable: bool)
    requires |l.queue| <= cap
    ensures var o := DrainAll(l, cap, isLeft, dstWritable);
      (InOrder(l) ==> InOrder(o.lane)) &&
      Offered(o.lane) == Offered(l) &&
      o.lane.count == l.count + (|o.lane.received| - |l.received|)
    decreases |l.source|, HeadSize(l.source)
  {
    var r := DrainRound(l, cap, isLeft, dstWritable);
    RoundKeepsOrder(l, cap, isLeft, dstWritable);
    if r.progress == Continue {
      DrainKeepsOrder(r.lane, cap, isLeft, dstWritable);
    }
  }

  /** Only a failed write makes the drain fail: a read that fails or brings
      nothing ends it without an error. */
  lemma {:induction false} DrainFailsOnlyOnWrite(l: Lane, cap: nat, isLeft: bool, dstWritable: bool)
    requires |l.queue| <= cap
    ensures DrainAll(l, cap, isLeft, dstWritable).result.Err? ==> dstWritable
    decreases |l.source|, HeadSize(l.source)
  {
    var r := DrainRound(l, cap, isLeft, dstWritable);
    if r.progress == Continue {
      DrainFailsOnlyOnWrite(r.lane, cap, isLeft, dstWritable);
    }
  }

  /** Two successive extensions of a queue by the new bytes of a log are one
      extension by everything the log gained. */
  lemma QueueExtends(q: seq<bv8>, r0: seq<bv8>, r1: seq<bv8>, r2: seq<bv8>)
    requires r0 <= r1 <= r2
    ensures (q + r1[|r0|..]) + r2[|r1|..] == q + r2[|r0|..]
  {
    var d1 := r1[|r0|..];
    var d2 := r2[|r1|..];
    assert r1 == r0 + d1;
    assert r2 == r1 + d2;
    assert r2[|r0|..] == d1 + d2;
    AppendAssoc(q, d1, d2);
  }

  /** A drain towards a destination that is not writable never fails and
      does not touch the destination; every byte it reads stays queued, so
      it reads no more than the buffer had room for. */
  lemma {:induction false} DrainBlocked(l: Lane, cap: nat, isLeft: bool)
    requires |l.queue| <= cap
    ensures var o := DrainAll(l, cap, isLeft, false);
      o.result.Ok? &&
      o.lane.sink == l.sink && o.lane.sent == l.sent &&
      l.received <= o.lane.received &&
      o.lane.queue == l.queue + o.lane.received[|l.received|..] &&
      |o.lane.received| - |l.received| <= cap - |l.queue|
    decreases |l.source|, HeadSize(l.source)
  {
    var r := DrainRound(l, cap, isLeft, false);
    var rd := ReadRound(l, cap, isLeft);
    assert r.lane == rd.lane;
    if r.progress == Continue {
      DrainBlocked(r.lane, cap, isLeft);
      var o := DrainAll(r.lane, cap, isLeft, false);
      QueueExtends(l.queue, l.received, r.lane.received, o.lane.received);
    }
  }

  /** The drain ends at once, printing nothing and changing nothing but the
      script, exactly when its first read fails or brings nothing: a read
      error, an end of stream, an exhausted script, or a full buffer. */
  lemma DrainStopsAtFirstEmptyRead(l: Lane, cap: nat, isLeft: bool, dstWritable: bool)
    requires |l.queue| <= cap
    ensures var o := DrainAll(l, cap, isLeft, dstWritable);
      (o == Outcome(Ok(()), l.(source := ReadFrom(l.source, cap - |l.queue|).rest), [])) <==>
      (l.source == [] || l.source[0].ReadFailed? || Min(cap - |l.queue|, HeadSize(l.source)) == 0)
  {
    var r := DrainRound(l, cap, isLeft, dstWritable);
    if r.progress != Done {
      var rd := ReadRound(l, cap, isLeft);
      assert rd.lines != [];
      assert r.lines[0] == rd.lines[0];
    }
  }

  /** A destination that accepts at least `cap` bytes on each of its next
      writes. */
  predicate Generous(sink: seq<WriteReply>, cap: nat)
  {
    forall i :: 0 <= i < |sink| ==> sink[i].Accepted? && sink[i].count >= cap
  }

  /** With a writable destination that takes everything it is offered, a
      drain that starts with nothing queued and completes leaves nothing
      queued: every byte read has been forwarded. */
  lemma {:induction false} DrainForwardsEverything(l: Lane, cap: nat, isLeft: bool)
    requires |l.queue| <= cap && l.queue == [] && Generous(l.sink, cap)
    ensures var o := DrainAll(l, cap, isLeft, true);
      o.result.Ok? ==> o.lane.queue == []
    decreases |l.source|, HeadSize(l.source)
  {
    var r := DrainRound(l, cap, isLeft, true);
    if r.progress == Continue {
      var rd := ReadRound(l, cap, isLeft);
      var f := Flush(rd.lane);
      assert f.ok;
      assert |f.lane.queue| == 0;
      assert Generous(r.lane.sink, cap) by {
        forall i | 0 <= i < |r.lane.sink|
          ensures r.lane.sink[i].Accepted? && r.lane.sink[i].count >= cap
        {
          assert r.lane.sink[i] == l.sink[i + 1];
        }
      }
      DrainForwardsEverything(r.lane, cap, isLeft);
    }
  }

  /** The poll tokens the two peers are registered under. */
  datatype Token = LeftChannel | RightChannel

  /** A readiness event: which peer, and whether it can be read from and
      written to. */
  datatype Event = Event(token: Token, readable: bool, writable: bool)

  /** The state `run` keeps between events: the lane from the left peer to
      the right one (`left_buffer`), the lane back (`right_buffer`), the two
      writable flags, and everything printed so far, line by line. */
  datatype Relay = Relay(ab: Lane, ba: Lane, leftWritable: bool, rightWritable: bool,
                         transcript: seq<string>)

  /** Both directions are in order. */
  predicate Conserved(s: Relay)
  {
    InOrder(s.ab) && InOrder(s.ba)
  }

  /** Both queues fit in buffers of `cap` bytes. */
  predicate Fits(s: Relay, cap: nat)
  {
    |s.ab.queue| <= cap && |s.ba.queue| <= cap
  }

  datatype Stepped = Stepped(result: IoResult<()>, relay: Relay)

  /** A readable event on the left peer (`passthrough.rs:54-77`): the drain of
      the left peer into `left_buffer`, forwarding to the right peer while
      `right_writable`, after which `right_writable` is cleared. */
  function LeftReadable(s: Relay, cap: nat): (t: Stepped)
    requires Fits(s, cap)
    ensures t.relay.ba == s.ba && t.relay.leftWritable == s.leftWritable
    ensures InOrder(s.ab) ==> InOrder(t.relay.ab)
    ensures Offered(t.relay.ab) == Offered(s.ab)
    ensures t.result.Ok? ==> !t.relay.rightWritable
  {
    DrainKeepsOrder(s.ab, cap, true, s.rightWritable);
    var o := DrainAll(s.ab, cap, true, s.rightWritable);
    Stepped(o.result, s.(ab := o.lane, rightWritable := s.rightWritable && o.result.Err?,
                         transcript := s.transcript + o.lines))
  }

  /** A readable event on the right peer (`passthrough.rs:93-116`): the mirror image. */
  function RightReadable(s: Relay, cap: nat): (t: Stepped)
    requires Fits(s, cap)
    ensures t.relay.ab == s.ab && t.relay.rightWritable == s.rightWritable
    ensures InOrder(s.ba) ==> InOrder(t.relay.ba)
    ensures Offered(t.relay.ba) == Offered(s.ba)
    ensures t.result.Ok? ==> !t.relay.leftWritable
  {
    DrainKeepsOrder(s.ba, cap, false, s.leftWritable);
    var o := DrainAll(s.ba, cap, false, s.leftWritable);
    Stepped(o.result, s.(ba := o.lane, leftWritable := s.leftWritable && o.result.Err?,
                         transcript := s.transcript + o.lines))
  }

  /** A writable event on the left peer (`passthrough.rs:78-90`): as written,
      a non-empty `left_buffer` is flushed to the right peer; an empty one
      only sets `left_writable`. */
  function LeftWritable(s: Relay): (t: Stepped)
    ensures t.relay.ba == s.ba && t.relay.rightWritable == s.rightWritable
    ensures InOrder(s.ab) ==> InOrder(t.relay.ab)
    ensures Offered(t.relay.ab) == Offered(s.ab)
    ensures |t.relay.ab.queue| <= |s.ab.queue|
  {
    if s.ab.queue == [] then Stepped(Ok(()), s.(leftWritable := true))
    else
      var r := FlushAndReport(s.ab, true, true);
      Stepped(if r.progress == Failed then Err else Ok(()),
              s.(ab := r.lane, transcript := s.transcript + r.lines))
  }

  /** A writable event on the right peer (`passthrough.rs:117-129`): the mirror image. */
  function RightWritable(s: Relay): (t: Stepped)
    ensures t.relay.ab == s.ab && t.relay.leftWritable == s.leftWritable
    ensures InOrder(s.ba) ==> InOrder(t.relay.ba)
    ensures Offered(t.relay.ba) == Offered(s.ba)
    ensures |t.relay.ba.queue| <= |s.ba.queue|
  {
    if s.ba.queue == [] then Stepped(Ok(()), s.(rightWritable := true))
    else
      var r := FlushAndReport(s.ba, false, true);
      Stepped(if r.progress == Failed then Err else Ok(()),
              s.(ba := r.lane, transcript := s.transcript + r.lines))
  }

  /** One pass of the `for event in events.iter()` body: the readable part,
      then, unless it failed, the writable part. */
  function Step(s: Relay, e: Event, cap: nat): (t: Stepped)
    requires Fits(s, cap)
    ensures Fits(t.relay, cap)
  {
    match e.token
    case LeftChannel =>
      var t := if e.readable then LeftReadable(s, cap) else Stepped(Ok(()), s);
      if t.result.Ok? && e.writable then LeftWritable(t.relay) else t
    case RightChannel =>
      var t := if e.readable then RightReadable(s, cap) else Stepped(Ok(()), s);
      if t.result.Ok? && e.writable then RightWritable(t.relay) else t
  }

  datatype Ran = Ran(result: IoResult<()>, handled: nat, relay: Relay)

  /** A bounded run of the poll loop: the events in order, up to the first
      error, which `run` returns. */
  function Run(s: Relay, events: seq<Event>, cap: nat): (r: Ran)
    requires Fits(s, cap)
    ensures Fits(r.relay, cap)
    decreases |events|
  {
    if events == [] then Ran(Ok(()), 0, s)
    else
      var t := Step(s, events[0], cap);
      if t.result.Err? then Ran(Err, 0, t.relay)
      else
        var r := Run(t.relay, events[1..], cap);
        Ran(r.result, r.handled + 1, r.relay)
  }

  /** Every event keeps both directions in order and takes bytes only from
      the front of the scripts. An event on one peer leaves the lane bound
      for it untouched, so a stalled direction never disturbs the other. */
  lemma StepConserves(s: Relay, e: Event, cap: nat)
    requires Fits(s, cap)
    ensures var t := Step(s, e, cap).relay;
      (Conserved(s) ==> Conserved(t)) &&
      Offered(t.ab) == Offered(s.ab) && Offered(t.ba) == Offered(s.ba) &&
      (e.token == LeftChannel ==> t.ba == s.ba) &&
      (e.token == RightChannel ==> t.ab == s.ab)
  {
  }

  /** What a readable and a writable event do to the flags and the buffers:
      a completed drain of one peer clears the other peer's writable flag; a
      writable event on a peer whose buffer is empty only sets its own flag;
      and on a peer whose buffer holds bytes it is a flush of that buffer to
      the other peer, which fails exactly when that write fails. */
  lemma StepFlags(s: Relay, e: Event, cap: nat)
    requires Fits(s, cap)
    ensures var t := Step(s, e, cap);
      (t.result.Ok? && e.readable && e.token == LeftChannel ==> !t.relay.rightWritable) &&
      (t.result.Ok? && e.readable && e.token == RightChannel ==> !t.relay.leftWritable) &&
      (!e.readable && e.writable && e.token == LeftChannel && s.ab.queue == [] ==>
         t == Stepped(Ok(()), s.(leftWritable := true))) &&
      (!e.readable && e.writable && e.token == RightChannel && s.ba.queue == [] ==>
         t == Stepped(Ok(()), s.(rightWritable := true))) &&
      (!e.readable && e.writable && e.token == LeftChannel && s.ab.queue != [] ==>
         t.relay.ab == Flush(s.ab).lane && (t.result.Ok? <==> Flush(s.ab).ok)) &&
      (!e.readable && e.writable && e.token == RightChannel && s.ba.queue != [] ==>
         t.relay.ba == Flush(s.ba).lane && (t.result.Ok? <==> Flush(s.ba).ok)) &&
      (!e.readable && !e.writable ==> t == Stepped(Ok(()), s))
  {
  }

  /** A run handles every event when it succeeds and stops short of the end
      when one fails; throughout, both directions stay in order and take
      bytes only from the front of the scripts. */
  lemma {:induction false} RunConserves(s: Relay, events: seq<Event>, cap: nat)
    requires Fits(s, cap)
    ensures var r := Run(s, events, cap);
      (r.result.Ok? ==> r.handled == |events|) &&
      (r.result.Err? ==> r.handled < |events|) &&
      (Conserved(s) ==> Conserved(r.relay)) &&
      Offered(r.relay.ab) == Offered(s.ab) && Offered(r.relay.ba) == Offered(s.ba)
    decreases |events|
  {
    if events != [] {
      var t := Step(s, events[0], cap);
      StepConserves(s, events[0], cap);
      if t.result.Ok? {
        RunConserves(t.relay, events[1..], cap);
      }
    }
  }
}
