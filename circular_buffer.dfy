/** Fixed-capacity circular byte buffer (`CircularBuffer<SIZE>`).
    The capacity `SIZE`, a compile-time constant in the original, is a
    constructor parameter here. */
module CircularBuffers {

  /** `x mod m` for the only range the buffer's index arithmetic ever produces. */
  function Wrap(x: nat, m: nat): (r: nat)
    requires x < 2 * m
    ensures r < m
    ensures x < m ==> r == x
  {
    if x < m then x else x - m
  }

  /** `Wrap` agrees with the remainder `%` wherever it is defined. */
  lemma WrapMod(x: nat, m: nat)
    requires x < 2 * m
    ensures Wrap(x, m) == x % m
  {
    var q, r := x / m, x % m;
    assert x == m * q + r;
    assert m * (q - 2) == m * q - 2 * m;
    assert m * (q + 1) == m * q + m;
    assert 0 <= q <= 1;
    if q == 0 {
      assert r == x;
    } else {
      assert r == x - m;
    }
  }

  /** The `n` bytes of the storage `s` that start at `start` and wrap around its end. */
  ghost function Window(s: seq<bv8>, start: nat, n: nat): (w: seq<bv8>)
    requires start < |s| && n <= |s|
    ensures |w| == n
  {
    seq(n, i requires 0 <= i < n => s[Wrap(start + i, |s|)])
  }

  /** The storage `s` after `data` has been copied into it starting at `start`,
      continuing at index 0 once the end of the storage is reached. */
  ghost function Stored(s: seq<bv8>, start: nat, data: seq<bv8>): (r: seq<bv8>)
    requires start < |s| && |data| <= |s|
    ensures |r| == |s|
  {
    seq(|s|, j requires 0 <= j < |s| =>
      var d := Wrap(j + |s| - start, |s|);
      if d < |data| then data[d] else s[j])
  }

  /** Reading back the window that starts where `data` was stored yields `data`,
      and the bytes before it are left alone. */
  lemma {:induction false} WindowAfterStore(s: seq<bv8>, tail: nat, n: nat, data: seq<bv8>)
    requires tail < |s| && n + |data| <= |s|
    ensures Window(Stored(s, Wrap(tail + n, |s|), data), tail, n + |data|) == Window(s, tail, n) + data
  {
    var m := |s|;
    var head := Wrap(tail + n, m);
    var t := Stored(s, head, data);
    var lhs := Window(t, tail, n + |data|);
    var rhs := Window(s, tail, n) + data;
    forall i | 0 <= i < n + |data|
      ensures lhs[i] == rhs[i]
    {
      var j := Wrap(tail + i, m);
      var d := Wrap(j + m - head, m);
      assert lhs[i] == t[j];
      if i < n {
        assert d == i + m - n;
        assert rhs[i] == s[j];
      } else {
        assert d == i - n;
        assert rhs[i] == data[i - n];
      }
    }
  }

  /** Retiring `k` bytes from the front of a window is the window that starts `k` later. */
  lemma {:induction false} WindowDrop(s: seq<bv8>, tail: nat, n: nat, k: nat)
    requires tail < |s| && k <= n <= |s|
    ensures Window(s, Wrap(tail + k, |s|), n - k) == Window(s, tail, n)[k..]
  {
    var lhs := Window(s, Wrap(tail + k, |s|), n - k);
    var rhs := Window(s, tail, n)[k..];
    forall i | 0 <= i < n - k
      ensures lhs[i] == rhs[i]
    {
      assert Wrap(Wrap(tail + k, |s|) + i, |s|) == Wrap(tail + k + i, |s|);
    }
  }

  /** A window that does not reach the end of the storage is a plain slice. */
  lemma WindowInPlace(s: seq<bv8>, start: nat, n: nat)
    requires start < |s| && start + n <= |s|
    ensures Window(s, start, n) == s[start..start + n]
  {
    forall i | 0 <= i < n
      ensures Window(s, start, n)[i] == s[start + i]
    {
      assert Wrap(start + i, |s|) == start + i;
    }
  }

  /** A window that runs past the end of the storage is its last part
      followed by its first part. */
  lemma WindowSplit(s: seq<bv8>, start: nat, n: nat)
    requires start < |s| && |s| <= start + n && n <= |s|
    ensures Window(s, start, n) == s[start..] + s[..start + n - |s|]
  {
    var rem := |s| - start;
    var r := s[start..] + s[..start + n - |s|];
    forall i | 0 <= i < n
      ensures Window(s, start, n)[i] == r[i]
    {
      if i < rem {
        assert Wrap(start + i, |s|) == start + i;
      } else {
        assert Wrap(start + i, |s|) == i - rem;
      }
    }
  }

  /** Retiring `k` of the `n` bytes queued in `s` between `tail` and `head`
      (with the full flag then clear): the new tail is `(tail + k) % |s|`, the
      count `ready_bytes` computes from it is `n - k`, and the window it
      describes is the old one without its first `k` bytes. */
  lemma AdvancedWindow(s: seq<bv8>, head: nat, tail: nat, n: nat, k: nat)
    requires head < |s| && tail < |s| && k <= n <= |s|
    requires Wrap(tail + n, |s|) == head && !(n == |s| && k == 0)
    ensures var t := (tail + k) % |s|;
      t == Wrap(tail + k, |s|) &&
      (if head < t then |s| - t + head else head - t) == n - k &&
      Window(s, t, n - k) == Window(s, tail, n)[k..]
  {
    WrapMod(tail + k, |s|);
    WindowDrop(s, tail, n, k);
  }

  /** `Stored` when `data` fits before the end of the storage. */
  lemma StoredInPlace(s: seq<bv8>, start: nat, data: seq<bv8>)
    requires start + |data| <= |s| && start < |s|
    ensures Stored(s, start, data) == s[..start] + data + s[start + |data|..]
  {
    var r := s[..start] + data + s[start + |data|..];
    forall j | 0 <= j < |s|
      ensures Stored(s, start, data)[j] == r[j]
    {
      if j >= start {
        assert Wrap(j + |s| - start, |s|) == j - start;
      } else {
        assert Wrap(j + |s| - start, |s|) == j + |s| - start;
      }
    }
  }

  /** `Stored` when `data` runs past the end of the storage: its first part
      fills `s[start..]` (giving `s1`), the rest goes to the front (giving `s2`). */
  lemma StoredSplit(s: seq<bv8>, start: nat, data: seq<bv8>, s1: seq<bv8>, s2: seq<bv8>)
    requires start < |s| < start + |data| && |data| <= |s|
    requires s1 == s[..start] + data[..|s| - start] + s[|s|..]
    requires s2 == s1[..0] + data[|s| - start..] + s1[|data| - (|s| - start)..]
    ensures s2 == Stored(s, start, data)
  {
    var rem := |s| - start;
    forall j | 0 <= j < |s|
      ensures s2[j] == Stored(s, start, data)[j]
    {
      if j >= start {
        assert Wrap(j + |s| - start, |s|) == j - start;
        assert s2[j] == s1[j];
      } else {
        assert Wrap(j + |s| - start, |s|) == j + rem;
        if j >= |data| - rem {
          assert s2[j] == s1[j];
        }
      }
    }
  }

  /** Copies `src` into `dst[at..at + |src|]`, leaving the rest of `dst` alone
      (the model of Rust's `copy_from_slice` on a sub-slice). */
  method CopyInto(dst: array<bv8>, at: nat, src: seq<bv8>)
    requires at + |src| <= dst.Length
    modifies dst
    ensures dst[..] == old(dst[..])[..at] + src + old(dst[..])[at + |src|..]
    ensures dst[..at] == old(dst[..at]) && dst[at..at + |src|] == src
    ensures dst[at + |src|..] == old(dst[at + |src|..])
  {
    forall i | 0 <= i < |src| {
      dst[at + i] := src[i];
    }
  }

  /** The copy of `buffer_read`: `src` goes into `dst` from index `at` on,
      continuing at index 0 once the end is reached. Returns where the copy
      ended, before it is reduced modulo the length. */
  method CopyWrapping(dst: array<bv8>, at: nat, src: seq<bv8>) returns (end: nat)
    requires at < dst.Length && |src| <= dst.Length
    modifies dst
    ensures dst[..] == Stored(old(dst[..]), at, src)
    ensures end < 2 * dst.Length && Wrap(end, dst.Length) == Wrap(at + |src|, dst.Length)
    ensures end % dst.Length == Wrap(end, dst.Length)
  {
    ghost var s := dst[..];
    var remaining := dst.Length - at;
    if remaining < |src| {
      CopyInto(dst, at, src[..remaining]);
      ghost var s1 := dst[..];
      end := |src| - remaining;
      CopyInto(dst, 0, src[remaining..]);
      StoredSplit(s, at, src, s1, dst[..]);
    } else {
      CopyInto(dst, at, src);
      StoredInPlace(s, at, src);
      end := at + |src|;
    }
    WrapMod(end, dst.Length);
  }

  class CircularBuffer {
    /** `SIZE` */
    const size: nat
    const buffer: array<bv8>
    /** next position `buffer_read` stores at */
    var head: nat
    /** next position `buffer_write` copies out from */
    var tail: nat
    var full: bool

    ghost predicate Valid()
      reads this
    {
      size > 0 && buffer.Length == size && head < size && tail < size &&
      (full ==> head == tail)
    }

    /** `free_bytes`: room left for `buffer_read`. */
    function FreeBytes(): (n: nat)
      reads this
      requires Valid()
      ensures n <= size
      ensures n == 0 <==> full
      ensures n == size <==> !full && head == tail
      ensures Wrap(head + n, size) == tail
    {
      if full then 0
      else if head < tail then tail - head
      else size - head + tail
    }

    /** `ready_bytes`: bytes queued between `tail` and `head`. */
    function ReadyBytes(): (n: nat)
      reads this
      requires Valid()
      ensures n + FreeBytes() == size
      ensures n == size <==> full
      ensures n == 0 <==> !full && head == tail
      ensures Wrap(tail + n, size) == head
    {
      if full then size
      else if head < tail then size - tail + head
      else head - tail
    }

    /** The queued bytes, oldest first: what `buffer_write` copies out. */
    ghost function Contents(): (s: seq<bv8>)
      reads this, buffer
      requires Valid()
      ensures |s| == ReadyBytes()
    {
      Window(buffer[..], tail, ReadyBytes())
    }

    constructor (size: nat)
      requires size > 0
      ensures Valid() && this.size == size && fresh(buffer)
      ensures head == 0 && tail == 0 && !full
      ensures ReadyBytes() == 0 && FreeBytes() == size && Contents() == []
      ensures forall i :: 0 <= i < size ==> buffer[i] == 0
    {
      this.size := size;
      buffer := new bv8[size](_ => 0);
      head, tail, full := 0, 0, false;
    }

    /** `buffer_read`: enqueues `buf` at `head`, wrapping as needed. As written,
        a zero-length call on an empty buffer (`head == tail`) sets the full flag,
        so the whole stale storage becomes "queued". */
    method BufferRead(buf: seq<bv8>)
      requires Valid()
      requires |buf| <= FreeBytes()
      modifies this`head, this`full, buffer
      ensures Valid()
      ensures tail == old(tail)
      ensures head == (old(head) + |buf|) % size
      ensures full <==> head == tail
      ensures buffer[..] == Stored(old(buffer[..]), old(head), buf)
      ensures ReadyBytes() == if old(ReadyBytes()) == 0 && |buf| == 0 then size else old(ReadyBytes()) + |buf|
      ensures Contents() == if old(ReadyBytes()) == 0 && |buf| == 0 then Window(buffer[..], tail, size)
                            else old(Contents()) + buf
    {
      Store(buf);
      if head == tail {
        full := true;
      }
    }

    /** The corrected `buffer_read`: the full flag is only raised when bytes
        were actually stored, so the queue is always the old queue plus `buf`. */
    method BufferReadCorrected(buf: seq<bv8>)
      requires Valid()
      requires |buf| <= FreeBytes()
      modifies this`head, this`full, buffer
      ensures Valid()
      ensures tail == old(tail)
      ensures head == (old(head) + |buf|) % size
      ensures buffer[..] == Stored(old(buffer[..]), old(head), buf)
      ensures ReadyBytes() == old(ReadyBytes()) + |buf|
      ensures Contents() == old(Contents()) + buf
    {
      Store(buf);
      if head == tail && |buf| > 0 {
        full := true;
      }
    }

    /** The copy and cursor update shared by both versions of `buffer_read`. */
    method Store(buf: seq<bv8>)
      requires Valid()
      requires |buf| <= FreeBytes()
      modifies this`head, buffer
      ensures Valid() && full == old(full) && tail == old(tail)
      ensures head == (old(head) + |buf|) % size
      ensures head == Wrap(old(head) + |buf|, size)
      ensures buffer[..] == Stored(old(buffer[..]), old(head), buf)
      ensures head == Wrap(tail + old(ReadyBytes()) + |buf|, size)
      ensures Window(buffer[..], tail, old(ReadyBytes()) + |buf|) == old(Contents()) + buf
    {
      ghost var s := buffer[..];
      ghost var n := ReadyBytes();
      assert head == Wrap(tail + n, |s|);
      head := CopyWrapping(buffer, head, buf);
      head := head % size;
      WrapMod(old(head) + |buf|, size);
      WindowAfterStore(s, tail, n, buf);
    }

    /** `buffer_write`: copies the queued bytes into `dest[..len]` in FIFO order
        without consuming them. The source only works when the slice is exactly
        as long as the queue and the queue is not empty. */
    method BufferWrite(dest: array<bv8>, len: nat)
      requires Valid() && dest != buffer
      requires 0 < len == ReadyBytes() && len <= dest.Length
      modifies dest
      ensures dest[..len] == Contents()
      ensures dest[len..] == old(dest[len..])
    {
      ghost var s := buffer[..];
      if tail < head {
        CopyInto(dest, 0, buffer[tail..head]);
        WindowInPlace(s, tail, len);
      } else {
        var remaining := size - tail;
        CopyInto(dest, 0, buffer[tail..]);
        ghost var d := dest[..];
        if head > 0 {
          CopyInto(dest, remaining, buffer[..head]);
        }
        assert dest[..remaining] == s[tail..] by {
          assert dest[..remaining] == d[..remaining];
        }
        assert dest[len..] == old(dest[len..]) by {
          assert dest[len..] == d[len..];
        }
        WindowSplit(s, tail, len);
        assert dest[..len] == dest[..remaining] + dest[remaining..len];
      }
    }

    /** `advance_tail`: retires `offset` bytes. As written, the full flag is
        cleared even when `offset == 0`, which empties a full buffer. */
    method AdvanceTail(offset: nat)
      requires Valid()
      modifies this`tail, this`full
      ensures Valid()
      ensures head == old(head) && tail == (old(tail) + offset) % size && !full
      ensures old(full) && offset == 0 ==> Contents() == []
      ensures offset <= old(ReadyBytes()) && !(old(full) && offset == 0) ==>
                Contents() == old(Contents())[offset..]
    {
      ghost var n := ReadyBytes();
      ghost var c := Contents();
      ghost var s := buffer[..];
      tail := (tail + offset) % size;
      full := false;
      if offset <= n && !(old(full) && offset == 0) {
        AdvancedWindow(s, head, old(tail), n, offset);
      } else if offset == 0 {
        WrapMod(old(tail), size);
      }
    }

    /** The corrected `advance_tail`: the full flag is cleared only when
        bytes are retired. */
    method AdvanceTailCorrected(offset: nat)
      requires Valid()
      requires offset <= ReadyBytes()
      modifies this`tail, this`full
      ensures Valid()
      ensures head == old(head) && tail == (old(tail) + offset) % size
      ensures ReadyBytes() == old(ReadyBytes()) - offset
      ensures Contents() == old(Contents())[offset..]
    {
      ghost var n := ReadyBytes();
      ghost var s := buffer[..];
      tail := (tail + offset) % size;
      if offset > 0 {
        full := false;
        AdvancedWindow(s, head, old(tail), n, offset);
      } else {
        WrapMod(old(tail), size);
      }
    }
  }
}
