/** The relay of `src/net/passthrough.rs`: two peers, one circular buffer per
    direction, a shared event buffer, and the handling of the readiness events
    of the poll loop. Sockets are replaced by scripted peers and the readiness
    multiplexer by a sequence of events. Every method here is proved to do
    what the function of `Relays` of the same name says, on the lanes and the
    relay state its objects hold. */
module Passthroughs {
  import opened Numerals
  import opened CircularBuffers
  import opened DataOutputs
  import opened Relays

  /** A peer connection. The scripts say what the next reads and writes
      return; once a script runs out every further call would block, which
      the relay sees as an error. */
  class Stream {
    var readReplies: seq<ReadReply>
    var writeReplies: seq<WriteReply>
    /** every byte the relay has read from this peer */
    var received: seq<bv8>
    /** every byte this peer has accepted from the relay */
    var sent: seq<bv8>

    constructor (readReplies: seq<ReadReply>, writeReplies: seq<WriteReply>)
      ensures this.readReplies == readReplies && this.writeReplies == writeReplies
      ensures received == [] && sent == []
    {
      this.readReplies, this.writeReplies := readReplies, writeReplies;
      received, sent := [], [];
    }

    /** A read into a slice of `len` bytes: the peer answers as `ReadFrom`
        says, and the bytes handed over are logged. */
    method Read(len: nat) returns (r: IoResult<seq<bv8>>)
      modifies this`readReplies, this`received
      ensures var o := ReadFrom(old(readReplies), len);
        r == o.got && readReplies == o.rest && received == old(received) + Got(o)
    {
      if readReplies == [] {
        return Err;
      }
      match readReplies[0]
      case ReadFailed =>
        r := Err;
        readReplies := readReplies[1..];
      case Bytes(d) =>
        var k := Min(len, |d|);
        r := Ok(d[..k]);
        readReplies := (if k == |d| then [] else [Bytes(d[k..])]) + readReplies[1..];
        received := received + d[..k];
    }

    /** A write of `data`: the peer answers as `WriteTo` says, and the prefix
        it took is logged. */
    method Write(data: seq<bv8>) returns (r: IoResult<nat>)
      modifies this`writeReplies, this`sent
      ensures var o := WriteTo(old(writeReplies), |data|);
        r == o.got && writeReplies == o.rest &&
        sent == old(sent) + (if r.Ok? then data[..r.value] else [])
    {
      if writeReplies == [] {
        return Err;
      }
      match writeReplies[0] {
        case WriteFailed =>
          r := Err;
        case Accepted(n) =>
          var k := Min(n, |data|);
          r := Ok(k);
          sent := sent + data[..k];
      }
      writeReplies := writeReplies[1..];
    }
  }

  /** `read_channel`: offers the peer exactly the free room of the buffer,
      then enqueues what it returned, with the corrected `buffer_read`: the
      queue grows by exactly the bytes read. */
  method ReadChannel(stream: Stream, streamBuffer: CircularBuffer, eventBuffer: array<bv8>)
    returns (r: IoResult<nat>)
    requires streamBuffer.Valid() && streamBuffer.size <= eventBuffer.Length
    requires eventBuffer != streamBuffer.buffer
    modifies stream`readReplies, stream`received
    modifies streamBuffer`head, streamBuffer`full, streamBuffer.buffer, eventBuffer
    ensures streamBuffer.Valid() && streamBuffer.tail == old(streamBuffer.tail)
    ensures var o := ReadFrom(old(stream.readReplies), old(streamBuffer.FreeBytes()));
      (r.Ok? <==> o.got.Ok?) && stream.readReplies == o.rest &&
      stream.received == old(stream.received) + Got(o) &&
      streamBuffer.Contents() == old(streamBuffer.Contents()) + Got(o) &&
      (r.Ok? ==> r.value == |o.got.value| && eventBuffer[..r.value] == o.got.value)
    ensures r.Ok? ==>
              streamBuffer.head == (old(streamBuffer.head) + r.value) % streamBuffer.size &&
              streamBuffer.buffer[..] ==
                Stored(old(streamBuffer.buffer[..]), old(streamBuffer.head), eventBuffer[..r.value])
  {
    var data := stream.Read(streamBuffer.FreeBytes());
    if data.Err? {
      return Err;
    }
    CopyInto(eventBuffer, 0, data.value);
    streamBuffer.BufferReadCorrected(eventBuffer[..|data.value|]);
    r := Ok(|data.value|);
  }

  /** `read_channel` with `buffer_read` as written: the same read, but a read
      of nothing into an empty buffer marks it full, so that the queue becomes
      the whole stale storage. */
  method ReadChannelAsWritten(stream: Stream, streamBuffer: CircularBuffer, eventBuffer: array<bv8>)
    returns (r: IoResult<nat>)
    requires streamBuffer.Valid() && streamBuffer.size <= eventBuffer.Length
    requires eventBuffer != streamBuffer.buffer
    modifies stream`readReplies, stream`received
    modifies streamBuffer`head, streamBuffer`full, streamBuffer.buffer, eventBuffer
    ensures streamBuffer.Valid() && streamBuffer.tail == old(streamBuffer.tail)
    ensures var o := ReadFrom(old(stream.readReplies), old(streamBuffer.FreeBytes()));
      (r.Ok? <==> o.got.Ok?) && stream.readReplies == o.rest &&
      stream.received == old(stream.received) + Got(o) &&
      (r.Ok? ==> r.value == |o.got.value| && eventBuffer[..r.value] == o.got.value)
    ensures r.Ok? ==>
              streamBuffer.head == (old(streamBuffer.head) + r.value) % streamBuffer.size &&
              streamBuffer.buffer[..] ==
                Stored(old(streamBuffer.buffer[..]), old(streamBuffer.head), eventBuffer[..r.value]) &&
              streamBuffer.Contents() ==
                if old(streamBuffer.ReadyBytes()) == 0 && r.value == 0
                then Window(streamBuffer.buffer[..], streamBuffer.tail, streamBuffer.size)
                else old(streamBuffer.Contents()) + eventBuffer[..r.value]
    ensures r.Err? ==> streamBuffer.Contents() == old(streamBuffer.Contents())
  {
    var data := stream.Read(streamBuffer.FreeBytes());
    if data.Err? {
      return Err;
    }
    CopyInto(eventBuffer, 0, data.value);
    streamBuffer.BufferRead(eventBuffer[..|data.value|]);
    r := Ok(|data.value|);
  }

  /** `write_channel`: copies the whole queue into the event buffer, offers it
      to the peer and retires what the peer accepted, with the corrected
      `advance_tail`. A failed write leaves the queue as it was. */
  method WriteChannel(stream: Stream, streamBuffer: CircularBuffer, eventBuffer: array<bv8>)
    returns (r: IoResult<nat>)
    requires streamBuffer.Valid() && streamBuffer.size <= eventBuffer.Length
    requires eventBuffer != streamBuffer.buffer
    requires streamBuffer.ReadyBytes() > 0
    modifies stream`writeReplies, stream`sent, streamBuffer`tail, streamBuffer`full, eventBuffer
    ensures streamBuffer.Valid() && streamBuffer.head == old(streamBuffer.head)
    ensures eventBuffer[..old(streamBuffer.ReadyBytes())] == old(streamBuffer.Contents())
    ensures var o := WriteTo(old(stream.writeReplies), old(streamBuffer.ReadyBytes()));
      r == o.got && stream.writeReplies == o.rest
    ensures r.Ok? ==>
              stream.sent == old(stream.sent) + old(streamBuffer.Contents())[..r.value] &&
              streamBuffer.Contents() == old(streamBuffer.Contents())[r.value..] &&
              streamBuffer.tail == (old(streamBuffer.tail) + r.value) % streamBuffer.size
    ensures r.Err? ==>
              stream.sent == old(stream.sent) && streamBuffer.Contents() == old(streamBuffer.Contents())
  {
    var ready := streamBuffer.ReadyBytes();
    streamBuffer.BufferWrite(eventBuffer, ready);
    var written := stream.Write(eventBuffer[..ready]);
    if written.Err? {
      return Err;
    }
    streamBuffer.AdvanceTailCorrected(written.value);
    r := Ok(written.value);
  }

  /** `write_channel` with `advance_tail` as written: the same write, but a
      peer that accepts nothing from a full buffer empties the queue. */
  method WriteChannelAsWritten(stream: Stream, streamBuffer: CircularBuffer, eventBuffer: array<bv8>)
    returns (r: IoResult<nat>)
    requires streamBuffer.Valid() && streamBuffer.size <= eventBuffer.Length
    requires eventBuffer != streamBuffer.buffer
    requires streamBuffer.ReadyBytes() > 0
    modifies stream`writeReplies, stream`sent, streamBuffer`tail, streamBuffer`full, eventBuffer
    ensures streamBuffer.Valid() && streamBuffer.head == old(streamBuffer.head)
    ensures eventBuffer[..old(streamBuffer.ReadyBytes())] == old(streamBuffer.Contents())
    ensures var o := WriteTo(old(stream.writeReplies), old(streamBuffer.ReadyBytes()));
      r == o.got && stream.writeReplies == o.rest
    ensures r.Ok? ==>
              stream.sent == old(stream.sent) + old(streamBuffer.Contents())[..r.value] &&
              streamBuffer.tail == (old(streamBuffer.tail) + r.value) % streamBuffer.size &&
              !streamBuffer.full &&
              streamBuffer.Contents() ==
                if old(streamBuffer.full) && r.value == 0 then []
                else old(streamBuffer.Contents())[r.value..]
    ensures r.Err? ==>
              stream.sent == old(stream.sent) && streamBuffer.Contents() == old(streamBuffer.Contents())
  {
    var ready := streamBuffer.ReadyBytes();
    streamBuffer.BufferWrite(eventBuffer, ready);
    var written := stream.Write(eventBuffer[..ready]);
    if written.Err? {
      return Err;
    }
    streamBuffer.AdvanceTail(written.value);
    r := Ok(written.value);
  }

  /** The lane one direction of the relay is in: `src`'s script and log, the
      queue of `streamBuffer`, `dst`'s script and log, and the direction's
      dump counter. */
  ghost function LaneOf(src: Stream, streamBuffer: CircularBuffer, dst: Stream, count: nat): Lane
    reads src`readReplies, src`received, streamBuffer, streamBuffer.buffer, dst`writeReplies, dst`sent
    requires streamBuffer.Valid()
  {
    Lane(src.readReplies, src.received, streamBuffer.Contents(), dst.writeReplies, dst.sent, count)
  }

  /** `read_channel` seen on the lane of `src`, `streamBuffer` and `dst`: the
      read takes the next reply of `src`'s script, and the bytes it brought
      join both `src`'s log and the queue. */
  method ReadIntoLane(src: Stream, streamBuffer: CircularBuffer, eventBuffer: array<bv8>,
                      ghost dst: Stream, ghost count: nat)
    returns (r: IoResult<nat>)
    requires streamBuffer.Valid() && streamBuffer.size <= eventBuffer.Length
    requires eventBuffer != streamBuffer.buffer
    modifies src`readReplies, src`received, streamBuffer`head, streamBuffer`full
    modifies streamBuffer.buffer, eventBuffer
    ensures streamBuffer.Valid()
    ensures var l := old(LaneOf(src, streamBuffer, dst, count));
      var o := ReadFrom(l.source, streamBuffer.size - |l.queue|);
      (r.Ok? <==> o.got.Ok?) && (r.Ok? ==> r.value == |o.got.value| && eventBuffer[..r.value] == o.got.value) &&
      LaneOf(src, streamBuffer, dst, count) ==
      l.(source := o.rest, received := l.received + Got(o), queue := l.queue + Got(o))
  {
    r := ReadChannel(src, streamBuffer, eventBuffer);
  }

  /** The lines a read of `readBytes` bytes prints: `print_read_bytes`, which
      also advances the direction's count, then `print_remaining_bytes`. */
  method ReportRead(output: DataOutput, eventBuffer: array<bv8>, readBytes: nat, isLeft: bool,
                    streamBuffer: CircularBuffer, ghost d: seq<bv8>, ghost backlog: nat)
    returns (lines: seq<string>)
    requires readBytes <= eventBuffer.Length && eventBuffer[..readBytes] == d
    requires streamBuffer.Valid() && streamBuffer.ReadyBytes() == backlog
    modifies output
    ensures output.Count(isLeft) == old(output.Count(isLeft)) + |d|
    ensures output.Count(!isLeft) == old(output.Count(!isLeft))
    ensures lines == [Header(isLeft, |d|)] + Dump(d, old(output.Count(isLeft))) + [Backlog(isLeft, backlog)]
  {
    var dumped := output.PrintReadBytes(eventBuffer[..], readBytes, isLeft);
    assert eventBuffer[..][..readBytes] == eventBuffer[..readBytes];
    var behind := output.PrintRemainingBytes(isLeft, streamBuffer);
    lines := dumped + [behind];
  }

  /** The second half of a read round that brought bytes: their report, which
      completes the round `ReadRound` describes for the lane `l` the read
      started from. */
  method ReportArrival(src: Stream, streamBuffer: CircularBuffer, eventBuffer: array<bv8>,
                       output: DataOutput, isLeft: bool, ghost dst: Stream, ghost l: Lane, readBytes: nat)
    returns (lines: seq<string>)
    requires streamBuffer.Valid() && |l.queue| <= streamBuffer.size
    requires var rd := ReadFrom(l.source, streamBuffer.size - |l.queue|);
      0 < readBytes == |Got(rd)| <= eventBuffer.Length && eventBuffer[..readBytes] == Got(rd) &&
      LaneOf(src, streamBuffer, dst, output.Count(isLeft)) ==
      l.(source := rd.rest, received := l.received + Got(rd), queue := l.queue + Got(rd))
    modifies output
    ensures output.Count(!isLeft) == old(output.Count(!isLeft))
    ensures Round(Continue, LaneOf(src, streamBuffer, dst, output.Count(isLeft)), lines) ==
            ReadRound(l, streamBuffer.size, isLeft)
  {
    ghost var d := Got(ReadFrom(l.source, streamBuffer.size - |l.queue|));
    ghost var queued := LaneOf(src, streamBuffer, dst, l.count);
    lines := ReportRead(output, eventBuffer, readBytes, isLeft, streamBuffer, d, |l.queue + d|);
    ReadRoundIs(l, streamBuffer.size, isLeft, d);
    assert LaneOf(src, streamBuffer, dst, output.Count(isLeft)) == queued.(count := l.count + |d|);
  }

  /** The reading half of a drain round: a read into `streamBuffer` and, when
      it brought bytes, their dump and the backlog line, as `ReadRound` says. */
  method ReadAndReport(src: Stream, streamBuffer: CircularBuffer, eventBuffer: array<bv8>,
                       output: DataOutput, isLeft: bool, ghost dst: Stream)
    returns (progress: Progress, lines: seq<string>)
    requires streamBuffer.Valid() && streamBuffer.size <= eventBuffer.Length
    requires eventBuffer != streamBuffer.buffer
    modifies src`readReplies, src`received, streamBuffer`head, streamBuffer`full
    modifies streamBuffer.buffer, eventBuffer, output
    ensures streamBuffer.Valid() && output.Count(!isLeft) == old(output.Count(!isLeft))
    ensures Round(progress, LaneOf(src, streamBuffer, dst, output.Count(isLeft)), lines) ==
            ReadRound(old(LaneOf(src, streamBuffer, dst, output.Count(isLeft))), streamBuffer.size, isLeft)
  {
    ghost var l := LaneOf(src, streamBuffer, dst, output.Count(isLeft));
    ghost var d := Got(ReadFrom(l.source, streamBuffer.size - |l.queue|));
    var read := ReadIntoLane(src, streamBuffer, eventBuffer, dst, l.count);
    if read.Err? || read.value == 0 {
      assert d == [];
      ReadRoundIdle(l, streamBuffer.size, isLeft);
      assert LaneOf(src, streamBuffer, dst, l.count) == l.(source := src.readReplies);
      return Done, [];
    }
    lines := ReportArrival(src, streamBuffer, eventBuffer, output, isLeft, dst, l, read.value);
    progress := Continue;
  }

  /** The rest of a drain round, and the flush of a writable event: when
      `dstWritable`, `write_channel` to `dst`, and then, unless that write
      failed, the backlog line, as `FlushAndReport` says. */
  method ForwardAndReport(dst: Stream, streamBuffer: CircularBuffer, eventBuffer: array<bv8>,
                          output: DataOutput, isLeft: bool, dstWritable: bool, ghost src: Stream)
    returns (progress: Progress, lines: seq<string>)
    requires streamBuffer.Valid() && streamBuffer.size <= eventBuffer.Length
    requires eventBuffer != streamBuffer.buffer
    requires streamBuffer.ReadyBytes() > 0
    modifies dst`writeReplies, dst`sent, streamBuffer`tail, streamBuffer`full, eventBuffer
    ensures streamBuffer.Valid()
    ensures Round(progress, LaneOf(src, streamBuffer, dst, output.Count(isLeft)), lines) ==
            FlushAndReport(old(LaneOf(src, streamBuffer, dst, output.Count(isLeft))), isLeft, dstWritable)
  {
    if dstWritable {
      var written := WriteChannel(dst, streamBuffer, eventBuffer);
      if written.Err? {
        return Failed, [];
      }
    }
    var behind := output.PrintRemainingBytes(isLeft, streamBuffer);
    return Continue, [behind];
  }

  /** One round of the drain loop of a readable event, as `DrainRound` says. */
  method DrainStep(src: Stream, dst: Stream, streamBuffer: CircularBuffer, eventBuffer: array<bv8>,
                   output: DataOutput, isLeft: bool, dstWritable: bool)
    returns (progress: Progress, lines: seq<string>)
    requires streamBuffer.Valid() && streamBuffer.size <= eventBuffer.Length
    requires eventBuffer != streamBuffer.buffer
    modifies src`readReplies, src`received, dst`writeReplies, dst`sent
    modifies streamBuffer, streamBuffer.buffer, eventBuffer, output
    ensures streamBuffer.Valid() && output.Count(!isLeft) == old(output.Count(!isLeft))
    ensures Round(progress, LaneOf(src, streamBuffer, dst, output.Count(isLeft)), lines) ==
            DrainRound(old(LaneOf(src, streamBuffer, dst, output.Count(isLeft))), streamBuffer.size,
                       isLeft, dstWritable)
  {
    progress, lines := ReadAndReport(src, streamBuffer, eventBuffer, output, isLeft, dst);
    if progress == Done {
      return;
    }
    var more;
    progress, more := ForwardAndReport(dst, streamBuffer, eventBuffer, output, isLeft, dstWritable, src);
    lines := lines + more;
  }

  /** The drain loop of a readable event, as `DrainAll` says: rounds until a
      read fails or brings nothing, or a write fails. Returns the printed lines. */
  method Drain(src: Stream, dst: Stream, streamBuffer: CircularBuffer, eventBuffer: array<bv8>,
               output: DataOutput, isLeft: bool, dstWritable: bool)
    returns (r: IoResult<()>, lines: seq<string>)
    requires streamBuffer.Valid() && streamBuffer.size <= eventBuffer.Length
    requires eventBuffer != streamBuffer.buffer
    modifies src`readReplies, src`received, dst`writeReplies, dst`sent
    modifies streamBuffer, streamBuffer.buffer, eventBuffer, output
    ensures streamBuffer.Valid() && output.Count(!isLeft) == old(output.Count(!isLeft))
    ensures Outcome(r, LaneOf(src, streamBuffer, dst, output.Count(isLeft)), lines) ==
            DrainAll(old(LaneOf(src, streamBuffer, dst, output.Count(isLeft))), streamBuffer.size,
                     isLeft, dstWritable)
  {
    ghost var goal := DrainAll(LaneOf(src, streamBuffer, dst, output.Count(isLeft)), streamBuffer.size,
                               isLeft, dstWritable);
    lines := [];
    while true
      invariant streamBuffer.Valid() && streamBuffer.size <= eventBuffer.Length
      invariant output.Count(!isLeft) == old(output.Count(!isLeft))
      invariant var o := DrainAll(LaneOf(src, streamBuffer, dst, output.Count(isLeft)), streamBuffer.size,
                                  isLeft, dstWritable);
                goal == Outcome(o.result, o.lane, lines + o.lines)
      decreases |src.readReplies|, HeadSize(src.readReplies)
    {
      var progress, printed := DrainStep(src, dst, streamBuffer, eventBuffer, output, isLeft, dstWritable);
      if progress == Failed {
        return Err, lines + printed;
      } else if progress == Done {
        return Ok(()), lines + printed;
      }
      ghost var rest := DrainAll(LaneOf(src, streamBuffer, dst, output.Count(isLeft)), streamBuffer.size,
                                 isLeft, dstWritable);
      AppendAssoc(lines, printed, rest.lines);
      lines := lines + printed;
    }
  }

  /** `Passtrough` together with the state `run` keeps between events: one
      buffer per direction (`leftBuffer` holds what the left peer sent and the
      right peer has not yet accepted), the shared event buffer, and the two
      writable flags. `transcript` is everything printed, line by line. */
  class Passthrough {
    const left: Stream
    const right: Stream
    const output: DataOutput
    const leftBuffer: CircularBuffer
    const rightBuffer: CircularBuffer
    const eventBuffer: array<bv8>
    var leftWritable: bool
    var rightWritable: bool
    var transcript: seq<string>

    /** How the objects are wired together; it holds for good once the
        constructor has run, since it reads only constant fields. */
    ghost predicate Wired()
    {
      left != right && leftBuffer != rightBuffer &&
      leftBuffer.buffer != rightBuffer.buffer &&
      eventBuffer != leftBuffer.buffer && eventBuffer != rightBuffer.buffer &&
      leftBuffer.size == eventBuffer.Length && rightBuffer.size == eventBuffer.Length
    }

    ghost predicate Valid()
      reads leftBuffer, rightBuffer
    {
      Wired() && leftBuffer.Valid() && rightBuffer.Valid()
    }

    /** The relay state these objects hold: the lane from the left peer to
        the right one through `leftBuffer`, the lane back through
        `rightBuffer`, the flags and the transcript. */
    ghost function Abstract(): (s: Relay)
      reads this, left, right, leftBuffer, rightBuffer, leftBuffer.buffer, rightBuffer.buffer, output
      requires Valid()
      ensures Fits(s, eventBuffer.Length)
    {
      Relay(LaneOf(left, leftBuffer, right, output.Count(true)),
            LaneOf(right, rightBuffer, left, output.Count(false)),
            leftWritable, rightWritable, transcript)
    }

    /** `Passtrough::new` and the set-up at the top of `run`: two empty
        buffers of `bufferSize` bytes, a zeroed event buffer, fresh counters,
        and both writable flags set. */
    constructor (left: Stream, right: Stream, bufferSize: nat)
      requires left != right && bufferSize > 0
      ensures Valid() && this.left == left && this.right == right
      ensures eventBuffer.Length == bufferSize
      ensures forall i :: 0 <= i < eventBuffer.Length ==> eventBuffer[i] == 0
      ensures Abstract() ==
                Relay(Lane(left.readReplies, left.received, [], right.writeReplies, right.sent, 0),
                      Lane(right.readReplies, right.received, [], left.writeReplies, left.sent, 0),
                      true, true, [])
    {
      this.left, this.right := left, right;
      output := new DataOutput();
      eventBuffer := new bv8[bufferSize](_ => 0);
      leftBuffer := new CircularBuffer(bufferSize);
      rightBuffer := new CircularBuffer(bufferSize);
      leftWritable, rightWritable := true, true;
      transcript := [];
    }

    /** The end of a readable event: the other peer's writable flag is
        cleared when the drain ended without an error, and what it printed is
        added to the transcript. */
    method Settle(isLeft: bool, drained: bool, printed: seq<string>)
      requires Valid()
      modifies this`leftWritable, this`rightWritable, this`transcript
      ensures Valid()
      ensures var s := old(Abstract());
        Abstract() == s.(leftWritable := s.leftWritable && (isLeft || !drained),
                         rightWritable := s.rightWritable && (!isLeft || !drained),
                         transcript := s.transcript + printed)
    {
      if drained {
        if isLeft {
          rightWritable := false;
        } else {
          leftWritable := false;
        }
      }
      transcript := transcript + printed;
    }

    /** A readable event on the left peer, as `LeftReadable` says: drain it
        into `leftBuffer`, forwarding to the right peer after each read if
        `rightWritable`, then clear `rightWritable`. */
    method OnLeftReadable() returns (r: IoResult<()>)
      requires Valid()
      modifies this, left, right, leftBuffer, leftBuffer.buffer, rightBuffer, rightBuffer.buffer
      modifies eventBuffer, output
      ensures Valid()
      ensures var t := LeftReadable(old(Abstract()), eventBuffer.Length);
        r == t.result && Abstract() == t.relay
    {
      var printed;
      r, printed := Drain(left, right, leftBuffer, eventBuffer, output, true, rightWritable);
      Settle(true, r.Ok?, printed);
    }

    /** A readable event on the right peer, as `RightReadable` says. */
    method OnRightReadable() returns (r: IoResult<()>)
      requires Valid()
      modifies this, left, right, leftBuffer, leftBuffer.buffer, rightBuffer, rightBuffer.buffer
      modifies eventBuffer, output
      ensures Valid()
      ensures var t := RightReadable(old(Abstract()), eventBuffer.Length);
        r == t.result && Abstract() == t.relay
    {
      var printed;
      r, printed := Drain(right, left, rightBuffer, eventBuffer, output, false, leftWritable);
      Settle(false, r.Ok?, printed);
    }

    /** A writable event on the left peer, as `LeftWritable` says: a
        non-empty `leftBuffer` (bound for the right peer) is flushed, and
        otherwise `leftWritable` is set. */
    method OnLeftWritable() returns (r: IoResult<()>)
      requires Valid()
      modifies this, right, leftBuffer, eventBuffer
      ensures Valid()
      ensures var t := LeftWritable(old(Abstract()));
        r == t.result && Abstract() == t.relay
    {
      if leftBuffer.ReadyBytes() != 0 {
        var progress, printed := ForwardAndReport(right, leftBuffer, eventBuffer, output, true, true, left);
        transcript := transcript + printed;
        r := if progress == Failed then Err else Ok(());
      } else {
        leftWritable := true;
        r := Ok(());
      }
    }

    /** A writable event on the right peer, as `RightWritable` says. */
    method OnRightWritable() returns (r: IoResult<()>)
      requires Valid()
      modifies this, left, rightBuffer, eventBuffer
      ensures Valid()
      ensures var t := RightWritable(old(Abstract()));
        r == t.result && Abstract() == t.relay
    {
      if rightBuffer.ReadyBytes() != 0 {
        var progress, printed := ForwardAndReport(left, rightBuffer, eventBuffer, output, false, true, right);
        transcript := transcript + printed;
        r := if progress == Failed then Err else Ok(());
      } else {
        rightWritable := true;
        r := Ok(());
      }
    }

    /** One pass of the `for event in events.iter()` body, as `Step` says. */
    method HandleEvent(event: Event) returns (r: IoResult<()>)
      requires Valid()
      modifies this, left, right, leftBuffer, rightBuffer, leftBuffer.buffer, rightBuffer.buffer
      modifies eventBuffer, output
      ensures Valid()
      ensures var t := Step(old(Abstract()), event, eventBuffer.Length);
        r == t.result && Abstract() == t.relay
    {
      r := Ok(());
      match event.token {
        case LeftChannel =>
          if event.readable {
            r := OnLeftReadable();
            if r.Err? {
              return;
            }
          }
          if event.writable {
            r := OnLeftWritable();
          }
        case RightChannel =>
          if event.readable {
            r := OnRightReadable();
            if r.Err? {
              return;
            }
          }
          if event.writable {
            r := OnRightWritable();
          }
      }
    }

    /** A bounded run of the poll loop, as `Run` says: handles `events` in
        order and stops at the first error, returning it together with how
        many events it completed. Both directions stay in order throughout. */
    method RunEvents(events: seq<Event>) returns (r: IoResult<()>, handled: nat)
      requires Valid()
      modifies this, left, right, leftBuffer, rightBuffer, leftBuffer.buffer, rightBuffer.buffer
      modifies eventBuffer, output
      ensures Valid()
      ensures var ran := Run(old(Abstract()), events, eventBuffer.Length);
        r == ran.result && handled == ran.handled && Abstract() == ran.relay
      ensures r.Ok? ==> handled == |events|
      ensures old(Conserved(Abstract())) ==> Conserved(Abstract())
    {
      ghost var start := Abstract();
      ghost var goal := Run(start, events, eventBuffer.Length);
      RunConserves(start, events, eventBuffer.Length);
      handled := 0;
      r := Ok(());
      while handled < |events|
        invariant handled <= |events| && Valid() && r == Ok(())
        invariant var rest := Run(Abstract(), events[handled..], eventBuffer.Length);
          goal == Ran(rest.result, handled + rest.handled, rest.relay)
      {
        ghost var rest := Run(Abstract(), events[handled..], eventBuffer.Length);
        assert events[handled..][0] == events[handled];
        assert events[handled..][1..] == events[handled + 1..];
        var result := HandleEvent(events[handled]);
        if result.Err? {
          assert rest == Ran(Err, 0, Abstract());
          return Err, handled;
        }
        handled := handled + 1;
      }
      assert events[handled..] == [];
    }
  }

  /** The storage of a four-byte buffer in `EndOfStreamReplaysStaleBytes`:
      `[1, 2]` stored from index 0, nothing stored at index 2, and the window
      of all four bytes from index 2. */
  lemma StaleStorage()
    ensures Stored([0, 0, 0, 0], 0, [1, 2]) == [1, 2, 0, 0]
    ensures Stored([1, 2, 0, 0], 2, []) == [1, 2, 0, 0]
    ensures Window([1, 2, 0, 0], 2, 4) == [0, 0, 1, 2]
  {
    forall j | 0 <= j < 4
      ensures Stored([0, 0, 0, 0], 0, [1, 2])[j] == [1, 2, 0, 0][j]
    {
      assert Wrap(j + 4, 4) == j;
    }
    forall j | 0 <= j < 4
      ensures Stored([1, 2, 0, 0], 2, [])[j] == [1, 2, 0, 0][j]
    {
      assert Wrap(j + 2, 4) == (j + 2) % 4;
    }
    forall j | 0 <= j < 4
      ensures Window([1, 2, 0, 0], 2, 4)[j] == [0, 0, 1, 2][j]
    {
      assert Wrap(2 + j, 4) == if j < 2 then j + 2 else j - 2;
    }
  }

  /** The first round of `EndOfStreamReplaysStaleBytes`: the left peer's
      two bytes are read and forwarded at once. */
  method ForwardFirstBytes(left: Stream, right: Stream, leftBuffer: CircularBuffer, eventBuffer: array<bv8>)
    requires left != right && eventBuffer != leftBuffer.buffer && eventBuffer.Length == 4
    requires leftBuffer.Valid() && leftBuffer.size == 4 && leftBuffer.ReadyBytes() == 0
    requires leftBuffer.head == 0 && leftBuffer.buffer[..] == [0, 0, 0, 0]
    requires left.readReplies == [Bytes([1, 2]), Bytes([])] && left.received == []
    requires right.writeReplies == [Accepted(2), Accepted(4)] && right.sent == []
    modifies left, right, leftBuffer, leftBuffer.buffer, eventBuffer
    ensures leftBuffer.Valid() && leftBuffer.ReadyBytes() == 0 && leftBuffer.tail == 2
    ensures leftBuffer.buffer[..] == [1, 2, 0, 0]
    ensures left.readReplies == [Bytes([])] && left.received == [1, 2]
    ensures right.writeReplies == [Accepted(4)] && right.sent == [1, 2]
  {
    StaleStorage();
    var read := ReadChannelAsWritten(left, leftBuffer, eventBuffer);
    assert read == Ok(2) && eventBuffer[..2] == [1, 2];
    var written := WriteChannelAsWritten(right, leftBuffer, eventBuffer);
    assert written == Ok(2);
  }

  /** The second round of `EndOfStreamReplaysStaleBytes`, with the ORIGINAL
      `buffer_read` and `advance_tail`: the left peer's end of stream is read
      into the empty buffer, then a writable event flushes the buffer to the
      right peer. */
  method CloseThenFlush(left: Stream, right: Stream, leftBuffer: CircularBuffer, eventBuffer: array<bv8>)
    requires left != right && eventBuffer != leftBuffer.buffer && eventBuffer.Length == 4
    requires leftBuffer.Valid() && leftBuffer.size == 4 && leftBuffer.ReadyBytes() == 0
    requires leftBuffer.tail == 2 && leftBuffer.buffer[..] == [1, 2, 0, 0]
    requires left.readReplies == [Bytes([])]
    requires right.writeReplies == [Accepted(4)]
    modifies left, right, leftBuffer, leftBuffer.buffer, eventBuffer
    ensures left.received == old(left.received)
    ensures right.sent == old(right.sent) + [0, 0, 1, 2]
  {
    StaleStorage();
    var read := ReadChannelAsWritten(left, leftBuffer, eventBuffer);
    assert read == Ok(0);
    assert leftBuffer.Contents() == [0, 0, 1, 2];
    var written := WriteChannelAsWritten(right, leftBuffer, eventBuffer);
    assert written == Ok(4);
  }

  /** A peer that closes its side while its buffer is empty, run through the
      calls a left readable event and a later left writable event make, with
      the buffer operations as originally written: the left peer sends
      `[1, 2]` and closes, the right peer accepts all it is offered. The read
      of nothing marks the empty buffer full, and the flush forwards the whole
      stale storage after the real bytes. */
  method EndOfStreamReplaysStaleBytes() returns (received: seq<bv8>, sent: seq<bv8>)
    ensures received == [1, 2]
    ensures sent == [1, 2, 0, 0, 1, 2]
  {
    var left := new Stream([Bytes([1, 2]), Bytes([])], []);
    var right := new Stream([], [Accepted(2), Accepted(4)]);
    var leftBuffer := new CircularBuffer(4);
    var eventBuffer := new bv8[4](_ => 0);
    assert leftBuffer.buffer[..] == [0, 0, 0, 0];
    ForwardFirstBytes(left, right, leftBuffer, eventBuffer);
    CloseThenFlush(left, right, leftBuffer, eventBuffer);
    received, sent := left.received, right.sent;
  }
}
