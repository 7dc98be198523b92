/** The usage pattern of the buffer's unit tests (enqueue, copy out what is
    ready, retire it), and the two places where the full flag misbehaves. */
module CircularBufferScenarios {
  import opened CircularBuffers

  /** One cycle of the tests: `buffer_read(x)`, then `buffer_write` of
      `ready_bytes()` bytes into `dest`, then `advance_tail` of that count.
      What comes out is everything that was queued followed by `x`, and the
      buffer is left empty. */
  method ReadWriteAdvance(b: CircularBuffer, x: seq<bv8>, dest: array<bv8>) returns (n: nat)
    requires b.Valid() && dest != b.buffer && b.size <= dest.Length
    requires |x| <= b.FreeBytes() && 0 < b.ReadyBytes() + |x|
    modifies b`head, b`tail, b`full, b.buffer, dest
    ensures b.Valid()
    ensures n == old(b.ReadyBytes()) + |x|
    ensures dest[..n] == old(b.Contents()) + x
    ensures dest[n..] == old(dest[n..])
    ensures b.ReadyBytes() == 0 && b.Contents() == []
  {
    b.BufferRead(x);
    n := b.ReadyBytes();
    b.BufferWrite(dest, n);
    b.AdvanceTail(n);
  }

  /** The capacity-8 test: for every length 1 to 8, a hundred times over,
      the first `k` bytes of 1..8 go in and come out unchanged, across every
      wrap-around of the cursors. The destination ends as 1..8. */
  method SimpleRead() returns (last: seq<bv8>)
    ensures last == [1, 2, 3, 4, 5, 6, 7, 8]
  {
    var src: seq<bv8> := [1, 2, 3, 4, 5, 6, 7, 8];
    var dest := new bv8[8](_ => 0);
    var b := new CircularBuffer(8);
    for k := 1 to 9
      invariant b.Valid() && b.size == 8 && b.ReadyBytes() == 0
      invariant fresh(b.buffer) && dest != b.buffer
      invariant dest[..] == src[..k - 1] + seq(9 - k, _ => 0)
    {
      var expected := src[..k] + seq(8 - k, _ => 0);
      for rep := 0 to 100
        invariant b.Valid() && b.size == 8 && b.ReadyBytes() == 0
        invariant rep == 0 ==> dest[..] == src[..k - 1] + seq(9 - k, _ => 0)
        invariant rep > 0 ==> dest[..] == expected
      {
        var n := ReadWriteAdvance(b, src[..k], dest);
        assert dest[..] == dest[..k] + dest[k..];
        assert dest[..] == expected;
      }
    }
    last := dest[..];
  }

  /** A step of the capacity-5 test: two `buffer_read`s, then the whole
      queue copied out and retired. The bytes come out in the order they went
      in, after whatever was already queued. */
  method ReadTwiceAndDrain(b: CircularBuffer, x: seq<bv8>, y: seq<bv8>, dest: array<bv8>)
    returns (out: seq<bv8>)
    requires b.Valid() && dest != b.buffer && b.size <= dest.Length
    requires 0 < |x| && |x| + |y| <= b.FreeBytes()
    modifies b`head, b`tail, b`full, b.buffer, dest
    ensures b.Valid() && b.ReadyBytes() == 0
    ensures out == old(b.Contents()) + x + y
  {
    b.BufferRead(x);
    var n := ReadWriteAdvance(b, y, dest);
    out := dest[..n];
  }

  /** The capacity-5 test: two pairs come out together, a pair that wraps
      around comes out intact, and five bytes enqueued in two calls that fill
      the buffer exactly come out in order. */
  method ReadPairs() returns (first: seq<bv8>, second: seq<bv8>, third: seq<bv8>)
    ensures first == [1, 1, 2, 2]
    ensures second == [3, 3]
    ensures third == [1, 2, 3, 4, 5]
  {
    var b := new CircularBuffer(5);
    var dest := new bv8[5](_ => 0);
    first := ReadTwiceAndDrain(b, [1, 1], [2, 2], dest);
    assert first == [] + [1, 1] + [2, 2];
    var n := ReadWriteAdvance(b, [3, 3], dest);
    second := dest[..n];
    assert second == [] + [3, 3];
    third := ReadTwiceAndDrain(b, [1, 2], [3, 4, 5], dest);
    assert third == [] + [1, 2] + [3, 4, 5];
  }

  /** As written, `buffer_read` of an empty slice on an empty buffer reports
      the buffer full: all of its stale storage becomes ready to send. */
  method ZeroLengthReadOnEmptyBuffer() returns (readyBefore: nat, readyAfter: nat, queued: seq<bv8>)
    ensures readyBefore == 0 && readyAfter == 4
    ensures queued == [0, 0, 0, 0]
  {
    var b := new CircularBuffer(4);
    ghost var zeros: seq<bv8> := [0, 0, 0, 0];
    assert b.buffer[..] == zeros;
    readyBefore := b.ReadyBytes();
    b.BufferRead([]);
    readyAfter := b.ReadyBytes();
    forall j | 0 <= j < 4
      ensures Stored(zeros, 0, [])[j] == 0
    {
      assert Wrap(j + 4, 4) == j;
    }
    forall i | 0 <= i < 4
      ensures Window(zeros, 0, 4)[i] == zeros[i]
    {
      assert Wrap(i, 4) == i;
    }
    assert Window(zeros, 0, 4) == zeros;
    assert b.buffer[..] == zeros;
    assert b.Contents() == Window(zeros, 0, 4);
    var dest := new bv8[4](_ => 9);
    b.BufferWrite(dest, readyAfter);
    queued := dest[..];
  }

  /** With the correction, the same call leaves the buffer empty. */
  method ZeroLengthReadOnEmptyBufferCorrected() returns (readyBefore: nat, readyAfter: nat)
    ensures readyBefore == 0 && readyAfter == 0
  {
    var b := new CircularBuffer(4);
    readyBefore := b.ReadyBytes();
    b.BufferReadCorrected([]);
    readyAfter := b.ReadyBytes();
  }

  /** As written, `advance_tail(0)` on a full buffer clears the full flag:
      every queued byte is dropped although none was retired. */
  method AdvanceZeroOnFullBuffer() returns (readyBefore: nat, readyAfter: nat)
    ensures readyBefore == 4 && readyAfter == 0
  {
    var b := new CircularBuffer(4);
    b.BufferRead([1, 2, 3, 4]);
    readyBefore := b.ReadyBytes();
    b.AdvanceTail(0);
    readyAfter := b.ReadyBytes();
  }

  /** With the correction, retiring nothing keeps all four bytes. */
  method AdvanceZeroOnFullBufferCorrected() returns (readyBefore: nat, readyAfter: nat)
    ensures readyBefore == 4 && readyAfter == 4
  {
    var b := new CircularBuffer(4);
    b.BufferRead([1, 2, 3, 4]);
    readyBefore := b.ReadyBytes();
    b.AdvanceTailCorrected(0);
    readyAfter := b.ReadyBytes();
  }
}
