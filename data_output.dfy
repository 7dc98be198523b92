/** Numerals as printed by Rust's `{}`, `{:x}`, `{:02x}` and `{:08x}`. */
module Numerals {

  function Min(a: nat, b: nat): nat { if a <= b then a else b }
  function Max(a: nat, b: nat): nat { if a <= b then b else a }

  /** `k` copies of `c`. */
  function Repeat(c: char, k: nat): (s: string)
    ensures |s| == k
  {
    seq(k, _ => c)
  }

  lemma RepeatAdd(c: char, a: nat, b: nat)
    ensures Repeat(c, a + b) == Repeat(c, a) + Repeat(c, b)
  {
  }

  /** The lower-case digit for `d` (`0`-`9`, then `a`-`f`). */
  function DigitChar(d: nat): char
    requires d < 16
  {
    if d < 10 then ('0' as int + d) as char else ('a' as int + d - 10) as char
  }

  /** The value of a digit character; the inverse of `DigitChar`. */
  function DigitValue(c: char): nat
  {
    if '0' <= c <= '9' then c as int - '0' as int
    else if 'a' <= c <= 'f' then c as int - 'a' as int + 10
    else 0
  }

  /** The digits of `n` in `base`, most significant first, without leading zeros. */
  function Numeral(n: nat, base: nat): (s: string)
    requires 2 <= base <= 16
    ensures |s| >= 1
    decreases n
  {
    if n < base then [DigitChar(n)] else Numeral(n / base, base) + [DigitChar(n % base)]
  }

  /** The number a string of digits denotes in `base`. */
  function NumeralValue(s: string, base: nat): nat
  {
    if s == [] then 0 else NumeralValue(s[..|s| - 1], base) * base + DigitValue(s[|s| - 1])
  }

  /** Reading a numeral back gives the number it was made from. */
  lemma DigitRoundTrip(d: nat)
    requires d < 16
    ensures DigitValue(DigitChar(d)) == d
  {
  }

  lemma DivMod(n: nat, base: nat)
    requires base > 0
    ensures n / base * base + n % base == n && n % base < base
  {
  }

  lemma DivDecreases(n: nat, base: nat)
    requires 2 <= base <= n
    ensures 0 < n / base < n
  {
    var q, r := n / base, n % base;
    DivMod(n, base);
    assert q >= 1;
    assert (base - 2) * q >= 0;
    assert q * base == (base - 2) * q + 2 * q;
  }

  lemma NumeralValueSnoc(s: string, c: char, base: nat)
    ensures NumeralValue(s + [c], base) == NumeralValue(s, base) * base + DigitValue(c)
  {
    var t := s + [c];
    assert t[..|t| - 1] == s;
  }

  /** Appending the digit `d` to a numeral worth `q` gives one worth `q * base + d`. */
  lemma NumeralValueDigit(s: string, q: nat, d: nat, base: nat, n: nat)
    requires d < base <= 16 && NumeralValue(s, base) == q && q * base + d == n
    ensures NumeralValue(s + [DigitChar(d)], base) == n
  {
    DigitRoundTrip(d);
    NumeralValueSnoc(s, DigitChar(d), base);
  }

  lemma {:induction false} NumeralRoundTrip(n: nat, base: nat)
    requires 2 <= base <= 16
    ensures NumeralValue(Numeral(n, base), base) == n
  {
    if n < base {
      NumeralValueDigit([], 0, n, base, n);
      assert [] + [DigitChar(n)] == Numeral(n, base);
    } else {
      var q, r := n / base, n % base;
      DivDecreases(n, base);
      DivMod(n, base);
      NumeralRoundTrip(q, base);
      NumeralValueDigit(Numeral(q, base), q, r, base, n);
    }
  }

  function Pow(b: nat, k: nat): nat
  {
    if k == 0 then 1 else b * Pow(b, k - 1)
  }

  lemma MulCancel(b: nat, q: nat, p: nat)
    requires q * b < p * b
    ensures q < p
  {
    assert (p - q) * b == p * b - q * b;
  }

  /** A number below `base^k` takes at most `k` digits. */
  lemma {:induction false} NumeralLength(n: nat, base: nat, k: nat)
    requires 2 <= base <= 16 && 1 <= k && n < Pow(base, k)
    ensures |Numeral(n, base)| <= k
    decreases k
  {
    if n >= base {
      assert Pow(base, 1) == base;
      assert k != 1;
      var q := n / base;
      var p := Pow(base, k - 1);
      DivMod(n, base);
      assert Pow(base, k) == p * base;
      MulCancel(base, q, p);
      NumeralLength(q, base, k - 1);
    }
  }

  /** `s` left-padded with `'0'` to at least `width` characters. */
  function ZeroPadded(s: string, width: nat): (r: string)
    ensures |r| == Max(|s|, width)
    ensures r[|r| - |s|..] == s
    ensures forall i :: 0 <= i < |r| - |s| ==> r[i] == '0'
  {
    if |s| < width then Repeat('0', width - |s|) + s else s
  }

  lemma {:induction false} ZerosValue(k: nat, base: nat)
    ensures NumeralValue(Repeat('0', k), base) == 0
  {
    if k > 0 {
      RepeatAdd('0', k - 1, 1);
      assert Repeat('0', k)[..k - 1] == Repeat('0', k - 1);
      ZerosValue(k - 1, base);
    }
  }

  /** Leading zeros do not change the value of a numeral. */
  lemma {:induction false} LeadingZerosValue(k: nat, s: string, base: nat)
    ensures NumeralValue(Repeat('0', k) + s, base) == NumeralValue(s, base)
    decreases |s|
  {
    var z := Repeat('0', k);
    if s == [] {
      assert z + s == z;
      ZerosValue(k, base);
    } else {
      var t := z + s;
      assert t[..|t| - 1] == z + s[..|s| - 1];
      LeadingZerosValue(k, s[..|s| - 1], base);
    }
  }

  /** `{}` of an unsigned integer: at least one digit, reading back as `n`. */
  function Decimal(n: nat): (s: string)
    ensures |s| >= 1 && NumeralValue(s, 10) == n
  {
    NumeralRoundTrip(n, 10);
    Numeral(n, 10)
  }

  /** `{:02x}` of a byte. */
  function Hex2(b: bv8): (s: string)
    ensures |s| == 2
  {
    [DigitChar(b as nat / 16), DigitChar(b as nat % 16)]
  }

  /** `{:08x}` of an offset: at least eight characters, the hex digits of `n`
      preceded by as many zeros as it takes. */
  function Hex8(n: nat): (s: string)
    ensures |s| >= 8 && |s| >= |Numeral(n, 16)|
    ensures s[|s| - |Numeral(n, 16)|..] == Numeral(n, 16)
    ensures forall i :: 0 <= i < |s| - |Numeral(n, 16)| ==> s[i] == '0'
  {
    ZeroPadded(Numeral(n, 16), 8)
  }

  /** `{:02x}` of a byte is the byte's hex numeral padded to two digits, and
      reads back as the byte. */
  lemma HexPairValue(n: nat)
    requires n < 256
    ensures NumeralValue([DigitChar(n / 16), DigitChar(n % 16)], 16) == n
  {
    var h, l := DigitChar(n / 16), DigitChar(n % 16);
    DigitRoundTrip(n / 16);
    DigitRoundTrip(n % 16);
    NumeralValueSnoc([], h, 16);
    NumeralValueSnoc([h], l, 16);
    assert [] + [h] == [h] && [h] + [l] == [h, l];
  }

  lemma HexPairPadded(n: nat)
    requires n < 256
    ensures [DigitChar(n / 16), DigitChar(n % 16)] == ZeroPadded(Numeral(n, 16), 2)
  {
    if n < 16 {
      assert Numeral(n, 16) == [DigitChar(n % 16)];
      assert Repeat('0', 1) == [DigitChar(n / 16)];
    } else {
      assert Numeral(n, 16) == Numeral(n / 16, 16) + [DigitChar(n % 16)];
      assert Numeral(n / 16, 16) == [DigitChar(n / 16)];
    }
  }

  lemma Hex2Format(b: bv8)
    ensures Hex2(b) == ZeroPadded(Numeral(b as nat, 16), 2)
    ensures NumeralValue(Hex2(b), 16) == b as nat
  {
    HexPairValue(b as nat);
    HexPairPadded(b as nat);
  }

  /** `{:08x}` of an offset below 2^32 is exactly eight hex digits that read
      back as the offset; larger offsets take more digits and still read back. */
  lemma Hex8Format(n: nat)
    ensures n < 0x1_0000_0000 ==> |Hex8(n)| == 8
    ensures NumeralValue(Hex8(n), 16) == n
  {
    var s := Numeral(n, 16);
    if n < 0x1_0000_0000 {
      assert Pow(16, 8) == 0x1_0000_0000;
      NumeralLength(n, 16, 8);
    }
    NumeralRoundTrip(n, 16);
    if |s| < 8 {
      LeadingZerosValue(8 - |s|, s, 16);
    }
  }
}

/** The traffic dump (`DataOutput`): per-direction byte counters and the
    hex/ASCII rendering of every read, 16 bytes per line in two halves of 8. */
module DataOutputs {
  import opened Numerals
  import opened CircularBuffers

  /** `LINE_WIDTH` */
  const LineWidth: nat := 16
  /** `LINE_WIDTH / 2` */
  const HalfWidth: nat := 8

  /** `printable`: a byte shown as itself in the ASCII column; computed, as in
      the source, as a wrapping subtraction compared against 0x5f. */
  function Printable(b: bv8): (r: bool)
    ensures r <==> 0x20 <= b <= 0x7e
  {
    b - 0x20 < 0x5f
  }

  /** How a byte appears in the ASCII column: itself when printable, `.`
      otherwise, so the column only ever holds printable ASCII. */
  function Shown(b: bv8): (c: char)
    ensures Printable(b) ==> c as int == b as int
    ensures !Printable(b) ==> c == '.'
    ensures ' ' <= c <= '~'
  {
    if Printable(b) then b as int as char else '.'
  }

  function ShownAll(bytes: seq<bv8>): (s: string)
    ensures |s| == |bytes|
    ensures forall i :: 0 <= i < |bytes| ==> s[i] == Shown(bytes[i])
  {
    seq(|bytes|, i requires 0 <= i < |bytes| => Shown(bytes[i]))
  }

  /** `k` empty hex cells. */
  function Blanks(k: nat): (s: string)
    ensures |s| == 3 * k
  {
    Repeat(' ', 3 * k)
  }

  /** One `" xx"` cell per byte. */
  function Cells(bytes: seq<bv8>): (s: string)
    ensures |s| == 3 * |bytes|
  {
    if bytes == [] then [] else " " + Hex2(bytes[0]) + Cells(bytes[1..])
  }

  lemma {:induction false} CellsAppend(a: seq<bv8>, b: seq<bv8>)
    ensures Cells(a + b) == Cells(a) + Cells(b)
  {
    if a != [] {
      assert (a + b)[1..] == a[1..] + b;
      CellsAppend(a[1..], b);
    } else {
      assert a + b == b;
    }
  }

  lemma BlanksAdd(a: nat, b: nat)
    ensures Blanks(a + b) == Blanks(a) + Blanks(b)
  {
    RepeatAdd(' ', 3 * a, 3 * b);
  }

  lemma BlanksSnoc(k: nat)
    ensures Blanks(k + 1) == Blanks(k) + "   "
  {
    BlanksAdd(k, 1);
  }

  /** The 8 cells of one half line: `h` blanks, the bytes, blank padding. */
  function HalfCells(h: nat, bytes: seq<bv8>): (s: string)
    requires h + |bytes| <= HalfWidth
    ensures |s| == 3 * HalfWidth
  {
    Blanks(h) + Cells(bytes) + Blanks(HalfWidth - h - |bytes|)
  }

  /** Printing the next cell extends the cells printed so far by one. */
  lemma CellsStep(prefix: string, text: string, done: seq<bv8>, b: bv8)
    requires text == prefix + Cells(done)
    ensures text + " " + Hex2(b) == prefix + Cells(done + [b])
  {
    CellsAppend(done, [b]);
    assert Cells([b]) == " " + Hex2(b) + Cells([]);
    Regroup(prefix, Cells(done), " ", Hex2(b));
  }

  lemma HalfCellsFull(h: nat, bytes: seq<bv8>)
    requires h + |bytes| == HalfWidth
    ensures HalfCells(h, bytes) == Blanks(h) + Cells(bytes)
  {
    assert Blanks(0) == [];
  }

  /** The hex part of a line whose first byte falls in column `col`: sixteen
      cells, the line's bytes in columns `col` onwards, with one extra space
      between the eighth and the ninth cell. */
  function HexColumns(col: nat, bytes: seq<bv8>): (s: string)
    requires col + |bytes| <= LineWidth
    ensures |s| == 3 * LineWidth + 1
  {
    var cells := Blanks(col) + Cells(bytes) + Blanks(LineWidth - col - |bytes|);
    cells[..3 * HalfWidth] + " " + cells[3 * HalfWidth..]
  }

  /** The ASCII part of a line: the bytes between bars, each in its column. */
  function AsciiColumns(col: nat, bytes: seq<bv8>): (s: string)
    ensures col + |bytes| <= LineWidth ==> |s| == LineWidth + 2
  {
    "|" + Repeat(' ', col) + ShownAll(bytes) +
    Repeat(' ', if col + |bytes| < LineWidth then LineWidth - col - |bytes| else 0) + "|"
  }

  /** One dump line: the offset, the hex columns, the ASCII columns. */
  function HexLine(offset: nat, col: nat, bytes: seq<bv8>): string
    requires col + |bytes| <= LineWidth
  {
    Hex8(offset) + " " + HexColumns(col, bytes) + " " + AsciiColumns(col, bytes)
  }

  /** A dump line starts with its offset, and every line of an offset below
      2^32 is 77 characters long whatever its bytes and column. */
  lemma HexLineLayout(offset: nat, col: nat, bytes: seq<bv8>)
    requires col + |bytes| <= LineWidth
    ensures var line := HexLine(offset, col, bytes);
      |line| == |Hex8(offset)| + 4 * LineWidth + 5 &&
      line[..|Hex8(offset)|] == Hex8(offset) &&
      (offset < 0x1_0000_0000 ==> |line| == 77)
  {
    var h := Hex8(offset);
    var rest := " " + HexColumns(col, bytes) + " " + AsciiColumns(col, bytes);
    assert |rest| == 4 * LineWidth + 5;
    assert HexLine(offset, col, bytes) == h + rest;
    if offset < 0x1_0000_0000 {
      Hex8Format(offset);
    }
  }

  /** How many of `remaining` bytes fit on the line that starts at `offset`. */
  function LineBytes(offset: nat, remaining: nat): (k: nat)
    ensures k <= remaining && offset % LineWidth + k <= LineWidth
    ensures remaining > 0 ==> k > 0
    ensures k < remaining ==> offset % LineWidth + k == LineWidth
  {
    Min(remaining, LineWidth - offset % LineWidth)
  }

  /** The bytes of one dump line and the stream offset of its first byte. */
  datatype Chunk = Chunk(offset: nat, bytes: seq<bv8>)

  /** How a dump splits `bytes`, the first at stream offset `offset`, into lines. */
  function Chunks(bytes: seq<bv8>, offset: nat): (cs: seq<Chunk>)
    ensures |cs| <= |bytes|
    ensures cs == [] <==> bytes == []
    decreases |bytes|
  {
    if bytes == [] then []
    else
      var k := LineBytes(offset, |bytes|);
      [Chunk(offset, bytes[..k])] + Chunks(bytes[k..], offset + k)
  }

  function Flatten(cs: seq<Chunk>): seq<bv8>
  {
    if cs == [] then [] else cs[0].bytes + Flatten(cs[1..])
  }

  /** The lines cover the bytes exactly, in order, with nothing repeated. */
  lemma {:induction false} ChunksCover(bytes: seq<bv8>, offset: nat)
    ensures Flatten(Chunks(bytes, offset)) == bytes
    decreases |bytes|
  {
    if bytes != [] {
      var k := LineBytes(offset, |bytes|);
      var cs := Chunks(bytes, offset);
      assert cs[1..] == Chunks(bytes[k..], offset + k);
      ChunksCover(bytes[k..], offset + k);
      assert bytes == bytes[..k] + bytes[k..];
    }
  }

  /** Each line holds at least one byte and stays within its 16 columns. */
  lemma {:induction false} ChunksFit(bytes: seq<bv8>, offset: nat)
    ensures forall i :: 0 <= i < |Chunks(bytes, offset)| ==>
              0 < |Chunks(bytes, offset)[i].bytes| &&
              Chunks(bytes, offset)[i].offset % LineWidth + |Chunks(bytes, offset)[i].bytes| <= LineWidth
    decreases |bytes|
  {
    if bytes != [] {
      var k := LineBytes(offset, |bytes|);
      var cs := Chunks(bytes, offset);
      var rest := Chunks(bytes[k..], offset + k);
      assert cs == [Chunk(offset, bytes[..k])] + rest;
      ChunksFit(bytes[k..], offset + k);
      forall i | 0 < i < |cs|
        ensures 0 < |cs[i].bytes| && cs[i].offset % LineWidth + |cs[i].bytes| <= LineWidth
      {
        assert cs[i] == rest[i - 1];
      }
    }
  }

  /** Every line after the first starts at a multiple of 16. */
  lemma {:induction false} ChunksAligned(bytes: seq<bv8>, offset: nat)
    ensures forall i :: 0 < i < |Chunks(bytes, offset)| ==> Chunks(bytes, offset)[i].offset % LineWidth == 0
    decreases |bytes|
  {
    if bytes != [] {
      var k := LineBytes(offset, |bytes|);
      var cs := Chunks(bytes, offset);
      var rest := Chunks(bytes[k..], offset + k);
      assert cs == [Chunk(offset, bytes[..k])] + rest;
      ChunksAligned(bytes[k..], offset + k);
      if rest != [] {
        assert rest[0].offset == offset + k;
        assert offset + k == LineWidth * (offset / LineWidth + 1);
      }
      forall i | 0 < i < |cs|
        ensures cs[i].offset % LineWidth == 0
      {
        assert cs[i] == rest[i - 1];
      }
    }
  }

  /** Each line starts where the previous one ended. */
  lemma {:induction false} ChunksContiguous(bytes: seq<bv8>, offset: nat)
    ensures forall i :: 0 <= i < |Chunks(bytes, offset)| - 1 ==>
              Chunks(bytes, offset)[i + 1].offset == Chunks(bytes, offset)[i].offset + |Chunks(bytes, offset)[i].bytes|
    decreases |bytes|
  {
    if bytes != [] {
      var k := LineBytes(offset, |bytes|);
      var cs := Chunks(bytes, offset);
      var rest := Chunks(bytes[k..], offset + k);
      assert cs == [Chunk(offset, bytes[..k])] + rest;
      ChunksContiguous(bytes[k..], offset + k);
      forall i | 0 <= i < |cs| - 1
        ensures cs[i + 1].offset == cs[i].offset + |cs[i].bytes|
      {
        if i > 0 {
          assert cs[i] == rest[i - 1] && cs[i + 1] == rest[i];
        } else {
          assert cs[1] == rest[0];
        }
      }
    }
  }

  /** The layout of the lines: the first starts at `offset`, each starts where
      the previous one ended, each holds at least one byte and stays within its
      16 columns, and every line after the first starts at a multiple of 16. */
  lemma ChunksLayout(bytes: seq<bv8>, offset: nat)
    ensures var cs := Chunks(bytes, offset);
      (bytes != [] ==> |cs| > 0 && cs[0].offset == offset) &&
      (forall i :: 0 <= i < |cs| ==>
        0 < |cs[i].bytes| && cs[i].offset % LineWidth + |cs[i].bytes| <= LineWidth) &&
      (forall i :: 0 < i < |cs| ==> cs[i].offset % LineWidth == 0) &&
      (forall i :: 0 <= i < |cs| - 1 ==> cs[i + 1].offset == cs[i].offset + |cs[i].bytes|)
  {
    ChunksFit(bytes, offset);
    ChunksAligned(bytes, offset);
    ChunksContiguous(bytes, offset);
  }

  /** The dump lines of `bytes` read from stream offset `offset`: one line per
      chunk, as `print_read_bytes` prints them. */
  function Dump(bytes: seq<bv8>, offset: nat): seq<string>
    decreases |bytes|
  {
    if bytes == [] then []
    else
      var k := LineBytes(offset, |bytes|);
      [HexLine(offset, offset % LineWidth, bytes[..k])] + Dump(bytes[k..], offset + k)
  }

  /** A dump has a line for every chunk, at most one per byte, and none for
      no bytes. */
  lemma {:induction false} DumpSize(bytes: seq<bv8>, offset: nat)
    ensures |Dump(bytes, offset)| == |Chunks(bytes, offset)| <= |bytes|
    ensures Dump(bytes, offset) == [] <==> bytes == []
    decreases |bytes|
  {
    if bytes != [] {
      var k := LineBytes(offset, |bytes|);
      assert Dump(bytes, offset) == [HexLine(offset, offset % LineWidth, bytes[..k])] + Dump(bytes[k..], offset + k);
      assert Chunks(bytes, offset) == [Chunk(offset, bytes[..k])] + Chunks(bytes[k..], offset + k);
      DumpSize(bytes[k..], offset + k);
    }
  }

  /** Line `i` of the dump shows chunk `i`, in the column its offset gives it. */
  lemma {:induction false} DumpShowsChunk(bytes: seq<bv8>, offset: nat, i: nat)
    requires i < |Chunks(bytes, offset)|
    ensures i < |Dump(bytes, offset)|
    ensures var c := Chunks(bytes, offset)[i];
      c.offset % LineWidth + |c.bytes| <= LineWidth &&
      Dump(bytes, offset)[i] == HexLine(c.offset, c.offset % LineWidth, c.bytes)
    decreases |bytes|
  {
    var k := LineBytes(offset, |bytes|);
    var rest := Chunks(bytes[k..], offset + k);
    assert Chunks(bytes, offset) == [Chunk(offset, bytes[..k])] + rest;
    if i > 0 {
      var first := HexLine(offset, offset % LineWidth, bytes[..k]);
      DumpShowsChunk(bytes[k..], offset + k, i - 1);
      ConsIndex(Chunk(offset, bytes[..k]), rest, i);
      ConsIndex(first, Dump(bytes[k..], offset + k), i);
    }
  }

  /** `lines` are the dump lines of `all` up to byte `done`: followed by the
      dump of the rest, they make up the dump of `all`. */
  predicate PrintedUpTo(lines: seq<string>, all: seq<bv8>, offset: nat, done: nat)
    requires done <= |all|
  {
    lines + Dump(all[done..], offset + done) == Dump(all, offset)
  }

  /** One step of `print_read_bytes`: printing the line of the next chunk
      keeps "printed lines followed by the lines still to print" fixed. */
  lemma DumpStep(lines: seq<string>, line: string, all: seq<bv8>, offset: nat, done: nat, printed: nat)
    requires done < |all| && printed == LineBytes(offset + done, |all| - done)
    requires line == HexLine(offset + done, (offset + done) % LineWidth, all[done..done + printed])
    requires PrintedUpTo(lines, all, offset, done)
    ensures PrintedUpTo(lines + [line], all, offset, done + printed)
  {
    DumpFirstLine(all, offset, done, printed);
    MoveFirst(lines, line, Dump(all[done + printed..], offset + (done + printed)),
              Dump(all[done..], offset + done), Dump(all, offset));
  }

  /** The dump from byte `done` on starts with the line of the bytes that fit on it. */
  lemma DumpFirstLine(all: seq<bv8>, offset: nat, done: nat, printed: nat)
    requires done < |all| && printed == LineBytes(offset + done, |all| - done)
    ensures Dump(all[done..], offset + done) ==
            [HexLine(offset + done, (offset + done) % LineWidth, all[done..done + printed])] +
            Dump(all[done + printed..], offset + (done + printed))
  {
    var tail := all[done..];
    assert tail[..printed] == all[done..done + printed];
    assert tail[printed..] == all[done + printed..];
  }

  /** Moving the first of the items still to come to the end of those done
      keeps their concatenation. */
  lemma MoveFirst<T>(done: seq<T>, x: T, rest: seq<T>, todo: seq<T>, whole: seq<T>)
    requires todo == [x] + rest && done + todo == whole
    ensures (done + [x]) + rest == whole
  {
    AppendAssoc(done, [x], rest);
  }

  lemma ConsIndex<T>(x: T, s: seq<T>, i: nat)
    requires 0 < i <= |s|
    ensures ([x] + s)[i] == s[i - 1]
  {
  }

  lemma AppendAssoc<T>(a: seq<T>, b: seq<T>, c: seq<T>)
    ensures (a + b) + c == a + (b + c)
  {
  }

  /** `"A"` for the left side, `"B"` for the right. */
  function Side(isLeft: bool): (s: string)
    ensures |s| == 1
    ensures s == "A" <==> isLeft
  {
    if isLeft then "A" else "B"
  }

  /** The first line printed for a read: `A -> B sent N bytes` names the
      sending side, then the other side, then the count in decimal. */
  function Header(isLeft: bool, readBytes: nat): string
  {
    Side(isLeft) + " -> " + Side(!isLeft) + " sent " + Decimal(readBytes) + " bytes"
  }

  /** The header names the sender, then the receiver, and spells the count
      in decimal between " sent " and " bytes". */
  lemma HeaderLayout(isLeft: bool, readBytes: nat)
    ensures var h := Header(isLeft, readBytes);
      18 < |h| && h[..1] == Side(isLeft) && h[1..5] == " -> " && h[5..6] == Side(!isLeft) &&
      h[6..12] == " sent " && h[|h| - 6..] == " bytes" &&
      NumeralValue(h[12..|h| - 6], 10) == readBytes
  {
    var h := Header(isLeft, readBytes);
    assert h[12..|h| - 6] == Decimal(readBytes);
  }

  /** The line `print_remaining_bytes` prints for a buffer holding `ready`
      bytes: `A is N bytes behind`, or `A is synced` when nothing is queued. */
  function Backlog(isLeft: bool, ready: nat): string
  {
    if ready > 0 then Side(isLeft) + " is " + Decimal(ready) + " bytes behind"
    else Side(isLeft) + " is synced"
  }

  /** The backlog line says "synced" exactly when nothing is queued, and
      otherwise spells the queued count in decimal before " bytes behind". */
  lemma BacklogLayout(isLeft: bool, ready: nat)
    ensures var line := Backlog(isLeft, ready);
      |line| >= 11 && line[..1] == Side(isLeft) && line[1..5] == " is " &&
      (ready == 0 <==> line == Side(isLeft) + " is synced") &&
      (ready > 0 ==> 18 < |line| && line[|line| - 13..] == " bytes behind" &&
                     NumeralValue(line[5..|line| - 13], 10) == ready)
  {
    var line := Backlog(isLeft, ready);
    if ready > 0 {
      assert line[5..|line| - 13] == Decimal(ready);
    } else {
      assert |line| == 11;
    }
  }

  /** The loops `for _ in a..b { print!("   ") }`: `count` empty cells. */
  method PrintBlankCells(count: nat) returns (text: string)
    ensures text == Blanks(count)
  {
    text := "";
    for k := 0 to count
      invariant text == Blanks(k)
    {
      BlanksSnoc(k);
      text := text + "   ";
    }
  }

  /** `print_half_hex`: prints the cells of one half line, starting at column
      `halfLineByte`, and returns how many bytes it consumed. */
  method PrintHalfHex(eventBuffer: seq<bv8>, bufferOffset: nat, remainingBytes: nat, halfLineByte: nat)
    returns (printed: nat, text: string)
    requires halfLineByte < HalfWidth
    requires bufferOffset + Min(remainingBytes, HalfWidth - halfLineByte) <= |eventBuffer|
    ensures printed == Min(remainingBytes, HalfWidth - halfLineByte)
    ensures text == HalfCells(halfLineByte, eventBuffer[bufferOffset..bufferOffset + printed])
  {
    var curLineByte := halfLineByte;
    text := PrintBlankCells(halfLineByte);
    ghost var done: seq<bv8> := [];
    for i := 0 to remainingBytes
      invariant curLineByte == halfLineByte + i < HalfWidth
      invariant done == eventBuffer[bufferOffset..bufferOffset + i]
      invariant text == Blanks(halfLineByte) + Cells(done)
    {
      var byte := eventBuffer[bufferOffset + i];
      CellsStep(Blanks(halfLineByte), text, done, byte);
      text := text + " " + Hex2(byte);
      done := done + [byte];
      assert done == eventBuffer[bufferOffset..bufferOffset + i + 1];
      if curLineByte == HalfWidth - 1 {
        printed := i + 1;
        HalfCellsFull(halfLineByte, done);
        return;
      }
      curLineByte := curLineByte + 1;
    }
    var padding := PrintBlankCells(HalfWidth - curLineByte);
    text := text + padding;
    printed := curLineByte - halfLineByte;
    assert |done| == printed && done == eventBuffer[bufferOffset..bufferOffset + printed];
  }

  /** `print_ascii`: the ASCII column of a line. */
  method PrintAscii(eventBuffer: seq<bv8>, bufferOffset: nat, lineOffset: nat, remainingBytes: nat)
    returns (text: string)
    requires bufferOffset + remainingBytes <= |eventBuffer|
    ensures text == AsciiColumns(lineOffset, eventBuffer[bufferOffset..bufferOffset + remainingBytes])
  {
    text := "|";
    for k := 0 to lineOffset
      invariant text == "|" + Repeat(' ', k)
    {
      RepeatAdd(' ', k, 1);
      text := text + " ";
    }
    ghost var prefix := text;
    for c := 0 to remainingBytes
      invariant text == prefix + ShownAll(eventBuffer[bufferOffset..bufferOffset + c])
    {
      var byte := eventBuffer[bufferOffset + c];
      if Printable(byte) {
        text := text + [byte as int as char];
      } else {
        text := text + ".";
      }
      assert ShownAll(eventBuffer[bufferOffset..bufferOffset + c + 1])
          == ShownAll(eventBuffer[bufferOffset..bufferOffset + c]) + [Shown(byte)];
    }
    ghost var shown := text;
    var start := lineOffset + remainingBytes;
    var k := start;
    while k < LineWidth
      invariant if start < LineWidth then start <= k <= LineWidth else k == start
      invariant text == shown + Repeat(' ', k - start)
    {
      RepeatAdd(' ', k - start, 1);
      text := text + " ";
      k := k + 1;
    }
    text := text + "|";
  }

  /** When the line starts in the first half, `print_hex_line`'s two calls of
      `print_half_hex` together print the sixteen hex columns. */
  lemma HalvesFormColumnsFromFirst(col: nat, bytes: seq<bv8>, p: nat)
    requires col < HalfWidth && col + |bytes| <= LineWidth
    requires p == Min(|bytes|, HalfWidth - col)
    ensures HalfCells(col, bytes[..p]) + " " + HalfCells(0, bytes[p..]) == HexColumns(col, bytes)
  {
    var cells := Blanks(col) + Cells(bytes) + Blanks(LineWidth - col - |bytes|);
    var a, b := bytes[..p], bytes[p..];
    assert bytes == a + b;
    CellsAppend(a, b);
    if |bytes| <= HalfWidth - col {
      FitsFirstHalf(col, a, b, cells);
    } else {
      SpansBothHalves(col, a, b, cells);
    }
  }

  lemma SplitAt(x: string, y: string)
    ensures (x + y)[..|x|] == x && (x + y)[|x|..] == y
  {
  }

  lemma Regroup(x: string, y: string, z: string, w: string)
    ensures x + y + (z + w) == (x + y + z) + w
  {
  }

  lemma FitsFirstHalf(col: nat, a: seq<bv8>, b: seq<bv8>, cells: string)
    requires b == [] && col + |a| <= HalfWidth
    requires cells == Blanks(col) + Cells(a) + Blanks(LineWidth - col - |a|)
    ensures cells[..3 * HalfWidth] == HalfCells(col, a)
    ensures cells[3 * HalfWidth..] == HalfCells(0, b)
  {
    var z := HalfWidth - col - |a|;
    assert cells == HalfCells(col, a) + Blanks(HalfWidth) by {
      assert LineWidth - col - |a| == z + HalfWidth;
      BlanksAdd(z, HalfWidth);
      Regroup(Blanks(col), Cells(a), Blanks(z), Blanks(HalfWidth));
    }
    assert HalfCells(0, b) == Blanks(HalfWidth) by {
      assert Blanks(0) == [] && Cells(b) == [];
    }
    SplitAt(HalfCells(col, a), Blanks(HalfWidth));
  }

  lemma SpansBothHalves(col: nat, a: seq<bv8>, b: seq<bv8>, cells: string)
    requires col + |a| == HalfWidth && |b| <= HalfWidth
    requires cells == Blanks(col) + Cells(a + b) + Blanks(LineWidth - col - |a| - |b|)
    ensures cells[..3 * HalfWidth] == HalfCells(col, a)
    ensures cells[3 * HalfWidth..] == HalfCells(0, b)
  {
    var x, ca, cb, y := Blanks(col), Cells(a), Cells(b), Blanks(HalfWidth - |b|);
    CellsAppend(a, b);
    assert LineWidth - col - |a| - |b| == HalfWidth - |b|;
    Regroup4(x, ca, cb, y);
    assert cells == (x + ca) + (cb + y);
    assert HalfCells(col, a) == x + ca by { assert Blanks(0) == []; }
    assert HalfCells(0, b) == cb + y by { assert Blanks(0) == []; }
    SplitAt(x + ca, cb + y);
  }

  lemma Regroup4(x: string, a: string, b: string, y: string)
    ensures (x + (a + b)) + y == (x + a) + (b + y)
  {
  }

  /** When the line starts in the second half, the first half is blank and
      the second call of `print_half_hex` prints the rest of the columns. */
  lemma HalvesFormColumnsFromSecond(col: nat, bytes: seq<bv8>)
    requires HalfWidth <= col && col + |bytes| <= LineWidth
    ensures Blanks(HalfWidth) + " " + HalfCells(col - HalfWidth, bytes) == HexColumns(col, bytes)
  {
    var cells := Blanks(col) + Cells(bytes) + Blanks(LineWidth - col - |bytes|);
    BlanksAdd(HalfWidth, col - HalfWidth);
    assert cells == Blanks(HalfWidth) + HalfCells(col - HalfWidth, bytes);
  }

  /** Whichever half the line starts in, the two halves printed by
      `print_hex_line` form its hex columns. */
  lemma HalvesFormColumns(s: seq<bv8>, lo: nat, col: nat, p: nat, n: nat, first: string, second: string)
    requires lo + n <= |s| && col + n <= LineWidth && p <= n
    requires col < HalfWidth ==>
      p == Min(n, HalfWidth - col) &&
      first == HalfCells(col, s[lo..lo + p]) && second == HalfCells(0, s[lo + p..lo + n])
    requires HalfWidth <= col ==>
      first == Blanks(HalfWidth) && second == HalfCells(col - HalfWidth, s[lo..lo + n])
    ensures first + " " + second == HexColumns(col, s[lo..lo + n])
  {
    var bytes := s[lo..lo + n];
    if col < HalfWidth {
      assert bytes[..p] == s[lo..lo + p];
      assert bytes[p..] == s[lo + p..lo + n];
      HalvesFormColumnsFromFirst(col, bytes, p);
    } else {
      HalvesFormColumnsFromSecond(col, bytes);
    }
  }

  lemma LineAssembly(offset: nat, col: nat, bytes: seq<bv8>, columns: string, ascii: string)
    requires col + |bytes| <= LineWidth
    requires columns == HexColumns(col, bytes) && ascii == AsciiColumns(col, bytes)
    ensures Hex8(offset) + " " + columns + " " + ascii == HexLine(offset, col, bytes)
  {
  }

  /** `print_hex_line`: prints one dump line for the bytes that fit on the line
      that starts at stream offset `lineOffset` and returns how many it printed. */
  method PrintHexLine(offsetBytes: nat, eventBuffer: seq<bv8>, bufferOffset: nat,
                      remainingBytes: nat, lineOffset: nat)
    returns (printed: nat, line: string)
    requires bufferOffset + LineBytes(lineOffset, remainingBytes) <= |eventBuffer|
    ensures printed == LineBytes(lineOffset, remainingBytes)
    ensures line == HexLine(offsetBytes, lineOffset % LineWidth,
                            eventBuffer[bufferOffset..bufferOffset + printed])
  {
    line := Hex8(offsetBytes) + " ";
    var lineByte := lineOffset % LineWidth;
    printed := 0;
    var first: string;
    if lineByte < HalfWidth {
      printed, first := PrintHalfHex(eventBuffer, bufferOffset, remainingBytes, lineByte);
    } else {
      first := PrintBlankCells(HalfWidth);
    }
    var halfLineByte := Max(lineOffset % LineWidth, HalfWidth) - HalfWidth;
    var more, second := PrintHalfHex(eventBuffer, bufferOffset + printed, remainingBytes - printed, halfLineByte);
    ghost var p1 := printed;
    printed := printed + more;
    var ascii := PrintAscii(eventBuffer, bufferOffset, lineByte, printed);
    HalvesFormColumns(eventBuffer, bufferOffset, lineByte, p1, printed, first, second);
    LineAssembly(offsetBytes, lineByte, eventBuffer[bufferOffset..bufferOffset + printed],
                 first + " " + second, ascii);
    line := line + (first + " " + second) + " " + ascii;
  }

  /** One pass of the line loop of `print_read_bytes`: prints the line of the
      bytes from `done` on that fit, and returns where the next line starts. */
  method PrintNextLine(all: seq<bv8>, offset: nat, lines: seq<string>, done: nat)
    returns (printedLines: seq<string>, next: nat)
    requires done < |all| && PrintedUpTo(lines, all, offset, done)
    ensures done < next <= |all|
    ensures PrintedUpTo(printedLines, all, offset, next)
  {
    var printed, line := PrintHexLine(offset + done, all, done, |all| - done, offset + done);
    next := done + printed;
    printedLines := lines + [line];
    DumpStep(lines, line, all, offset, done, printed);
  }

  /** The line loop of `print_read_bytes`: dumps `eventBuffer[..readBytes]`,
      the first byte of which sits at stream offset `offset`. */
  method PrintLines(eventBuffer: seq<bv8>, readBytes: nat, offset: nat) returns (lines: seq<string>)
    requires readBytes <= |eventBuffer|
    ensures lines == Dump(eventBuffer[..readBytes], offset)
  {
    lines := [];
    var all := eventBuffer[..readBytes];
    var printedBytes := 0;
    assert all[printedBytes..] == all;
    while printedBytes < |all|
      invariant printedBytes <= |all|
      invariant PrintedUpTo(lines, all, offset, printedBytes)
      decreases |all| - printedBytes
    {
      lines, printedBytes := PrintNextLine(all, offset, lines, printedBytes);
    }
    assert all[printedBytes..] == [];
  }

  class DataOutput {
    /** bytes read from the left side so far */
    var leftReadBytes: nat
    /** bytes read from the right side so far */
    var rightReadBytes: nat

    constructor ()
      ensures leftReadBytes == 0 && rightReadBytes == 0
    {
      leftReadBytes, rightReadBytes := 0, 0;
    }

    /** The bytes counted so far for a direction: the stream offset its next
        dump starts at. */
    function Count(isLeft: bool): nat
      reads this
    {
      if isLeft then leftReadBytes else rightReadBytes
    }

    /** `print_read_bytes`: counts `readBytes` more bytes for the direction and
        returns the header line followed by the dump of `eventBuffer[..readBytes]`,
        whose offsets continue from the direction's previous count. */
    method PrintReadBytes(eventBuffer: seq<bv8>, readBytes: nat, isLeft: bool)
      returns (lines: seq<string>)
      requires readBytes <= |eventBuffer|
      modifies this
      ensures Count(isLeft) == old(Count(isLeft)) + readBytes && Count(!isLeft) == old(Count(!isLeft))
      ensures lines == [Header(isLeft, readBytes)] + Dump(eventBuffer[..readBytes], old(Count(isLeft)))
    {
      var offsetBytes;
      if isLeft {
        offsetBytes := leftReadBytes;
        leftReadBytes := leftReadBytes + readBytes;
      } else {
        offsetBytes := rightReadBytes;
        rightReadBytes := rightReadBytes + readBytes;
      }
      var dump := PrintLines(eventBuffer, readBytes, offsetBytes);
      lines := [Header(isLeft, readBytes)] + dump;
    }

    /** `print_remaining_bytes`: how far the direction's buffer is behind. */
    method PrintRemainingBytes(isLeft: bool, streamBuffer: CircularBuffer) returns (line: string)
      requires streamBuffer.Valid()
      ensures line == Backlog(isLeft, streamBuffer.ReadyBytes())
    {
      var readyBytes := streamBuffer.ReadyBytes();
      if readyBytes > 0 {
        line := Side(isLeft) + " is " + Decimal(readyBytes) + " bytes behind";
      } else {
        line := Side(isLeft) + " is synced";
      }
    }
  }
}
