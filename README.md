# tiburoncin relay core in Dafny

tiburoncin sits between two TCP peers, A (left) and B (right). It forwards
bytes in both directions and prints a hex/ASCII dump of everything it relays.
This project models three parts of it and proves properties about each.

- **The circular byte buffer** (`CircularBuffer<SIZE>`, file `circular_buffer.dfy`).
  - It is a class over an `array<bv8>` with the cursors `head` and `tail` and the `full` flag.
  - The compile-time capacity `SIZE` (`BUFFER_SIZE` in the relay) becomes a constructor parameter.
  - Each method is proved against the ghost view `Contents()`: the queued bytes, oldest first.
- **The buffer's unit tests, as verified scenarios** (file `circular_buffer_scenarios.dfy`).
- **The hex dump** (`DataOutput`, file `data_output.dfy`).
  - Output that the original prints to standard output is returned as strings: one string per printed line.
  - The dump is specified by the pure functions `Chunks`, `HexLine` and `Dump`; the lines around it by `Header` and `Backlog`. The printing loops are proved against them.
  - Rust's `{}`, `{:02x}` and `{:08x}` are modelled by `Numerals`, with their round-trip lemmas.
- **The relay** (`Passtrough`, files `relay.dfy` and `passthrough.dfy`).
  - `Relays` says on plain values what the relay does. One direction is a `Lane`: the source peer's script of replies and the bytes read from it, the direction's buffer queue, the destination's script and the bytes it accepted, and the dump counter. `ReadRound`, `Flush`, `DrainRound` and `DrainAll` describe the drain loop; `LeftReadable`, `LeftWritable` and their mirrors describe the event handlers; `Step` and `Run` describe the poll loop.
  - `Passthroughs` holds the imperative relay. `read_channel` and `write_channel` work on scripted peers (`Stream`). Instead of a socket, a peer holds a queue of replies to reads and writes, plus a log of the bytes it gave and the bytes it accepted.
  - The body of the poll loop becomes `Passthrough.HandleEvent`. A bounded run over a sequence of readiness events becomes `Passthrough.RunEvents`. Each method is proved to produce exactly the result, the new state and the printed lines that the `Relays` function of the same role gives for the old state.
  - The main invariant is `Relays.Conserved`: each peer has been sent a prefix of what the other peer sent, and the rest of it is queued, in order. Every event preserves it, whatever the peers reply.
  - The relay uses the corrected `buffer_read` and `advance_tail` (see "## Findings"). With the original ones, conservation fails: `Passthroughs.EndOfStreamReplaysStaleBytes` shows the relay inventing bytes.

Two behaviours of the relay worth knowing:

1. **A read of zero bytes (end of stream)** only ends the drain loop of that readable event. The relay does not close. A read error ends the loop in the same way and is not returned; only a failed write is.
2. **A writable event on one peer** flushes the buffer that peer *filled*, to the other peer (`passthrough.rs:78-90`, `117-129`). It does not flush the buffer bound for that peer.

## Model

| member | source | states |
|---|---|---|
| CircularBuffers.WrapMod | src/net/circular_buffer.rs:62 | the explicit wrap used by the model equals `% SIZE` on every index the buffer produces |
| CircularBuffers.WindowAfterStore | src/net/circular_buffer.rs:52-66 | after storing `data` at `tail + n`, the window of `n + data.len()` bytes from `tail` is the old window followed by `data` |
| CircularBuffers.WindowDrop | src/net/circular_buffer.rs:84-87 | the window that starts `k` bytes later is the old window without its first `k` bytes |
| CircularBuffers.WindowInPlace | src/net/circular_buffer.rs:72-73 | a window that does not wrap is the plain slice `buffer[tail..head]` |
| CircularBuffers.WindowSplit | src/net/circular_buffer.rs:74-80 | a window that wraps is `buffer[tail..]` followed by `buffer[..head]` |
| CircularBuffers.AdvancedWindow | src/net/circular_buffer.rs:84-87 | retiring `k` of `n` queued bytes: the new tail is `(tail + k) % SIZE`, `ready_bytes` then gives `n - k`, and the queue loses exactly its first `k` bytes |
| CircularBuffers.StoredInPlace | src/net/circular_buffer.rs:58-60 | the non-wrapping copy writes `data` at `head` and leaves the rest of the storage alone |
| CircularBuffers.StoredSplit | src/net/circular_buffer.rs:54-57 | the two copies of the wrapping branch together store `data` circularly from `head` |
| CircularBuffers.CopyInto | src/net/circular_buffer.rs:55 | `copy_from_slice` on a sub-slice: exactly `dst[at..at + src.len()]` becomes `src`, and nothing else changes |
| CircularBuffers.CopyWrapping | src/net/circular_buffer.rs:53-62 | both branches of `buffer_read` store `buf` circularly from `head`, and the new head reduces to `(head + buf.len()) % SIZE` |
| CircularBuffers.CircularBuffer.FreeBytes | src/net/circular_buffer.rs:26-35 | free room is at most `SIZE`; it is 0 iff full and `SIZE` iff empty; it reaches from `head` to `tail` |
| CircularBuffers.CircularBuffer.ReadyBytes | src/net/circular_buffer.rs:38-47 | `ready + free == SIZE`; ready is `SIZE` iff full and 0 iff `head == tail` and not full; it reaches from `tail` to `head` |
| CircularBuffers.CircularBuffer.constructor | src/net/circular_buffer.rs:12-23 | a new buffer has zeroed storage and both cursors at 0; it is not full and has nothing queued |
| CircularBuffers.CircularBuffer.Store | src/net/circular_buffer.rs:53-62 | the copy and cursor update of `buffer_read`: the queue grows by `buf`, and `tail` and `full` are untouched |
| CircularBuffers.CircularBuffer.BufferRead | src/net/circular_buffer.rs:52-66 | as written: head advances by `buf.len()` mod `SIZE` and full is set iff `head == tail`. The queue becomes the old queue plus `buf`, except a zero-length call on an empty buffer, which queues the whole storage |
| CircularBuffers.CircularBuffer.BufferReadCorrected | src/net/circular_buffer.rs:52-66 | corrected: the queue is always the old queue followed by `buf`, and ready grows by `buf.len()` |
| CircularBuffers.CircularBuffer.BufferWrite | src/net/circular_buffer.rs:71-81 | `dest[..len]` receives the queued bytes in FIFO order, in both the wrapping and the non-wrapping branch; the rest of `dest` and the buffer are unchanged |
| CircularBuffers.CircularBuffer.AdvanceTail | src/net/circular_buffer.rs:84-87 | as written: `tail` becomes `(tail + offset) % SIZE` and full is cleared. The queue loses its first `offset` bytes, except that `offset == 0` on a full buffer empties it |
| CircularBuffers.CircularBuffer.AdvanceTailCorrected | src/net/circular_buffer.rs:84-87 | corrected: retiring `offset <= ready` bytes drops exactly the first `offset` queued bytes |
| CircularBufferScenarios.ReadWriteAdvance | src/net/circular_buffer.rs:111-113 | one enqueue, copy-out and retire cycle returns the old queue followed by the new bytes and leaves the buffer empty |
| CircularBufferScenarios.SimpleRead | src/net/circular_buffer.rs:100-117 | the capacity-8 test: across every wrap-around, the destination ends as `1..8` |
| CircularBufferScenarios.ReadTwiceAndDrain | src/net/circular_buffer.rs:123-129 | two enqueues then a full drain yield the old queue, then the first slice, then the second |
| CircularBufferScenarios.ReadPairs | src/net/circular_buffer.rs:119-145 | the capacity-5 test: `[1,1,2,2]`, then `[3,3]` (which wraps), then `[1,2,3,4,5]` (which fills the buffer exactly) |
| CircularBufferScenarios.ZeroLengthReadOnEmptyBuffer | src/net/circular_buffer.rs:62-65 | as written: an empty `buffer_read` on a new 4-byte buffer makes 4 stale zero bytes ready |
| CircularBufferScenarios.ZeroLengthReadOnEmptyBufferCorrected | src/net/circular_buffer.rs:62-65 | corrected: the same call leaves nothing ready |
| CircularBufferScenarios.AdvanceZeroOnFullBuffer | src/net/circular_buffer.rs:84-87 | as written: `advance_tail(0)` on a full 4-byte buffer leaves 0 bytes ready |
| CircularBufferScenarios.AdvanceZeroOnFullBufferCorrected | src/net/circular_buffer.rs:84-87 | corrected: the 4 bytes stay ready |
| Numerals.Repeat | src/net/data_output.rs:103-105 | `k` copies of a character are `k` characters long |
| Numerals.Numeral | src/net/data_output.rs:24 | the digits of a number are never empty |
| Numerals.DigitRoundTrip | src/net/data_output.rs:108 | a hex digit reads back as its value |
| Numerals.NumeralRoundTrip | src/net/data_output.rs:24 | the digits of `n` in any base from 2 to 16 read back as `n` |
| Numerals.NumeralLength | src/net/data_output.rs:69 | a number below `base^k` takes at most `k` digits |
| Numerals.ZeroPadded | src/net/data_output.rs:69 | zero padding yields at least the requested width and never cuts digits |
| Numerals.LeadingZerosValue | src/net/data_output.rs:69 | leading zeros do not change a numeral's value |
| Numerals.Decimal | src/net/data_output.rs:24 | `{}` of a count is at least one digit and reads back as that count |
| Numerals.Hex2 | src/net/data_output.rs:108 | `{:02x}` of a byte is two characters |
| Numerals.Hex8 | src/net/data_output.rs:69 | `{:08x}` of an offset is at least 8 characters: the offset's hex digits, preceded only by zeros |
| Numerals.HexPairValue | src/net/data_output.rs:108 | the two hex digits of a byte read back as the byte |
| Numerals.HexPairPadded | src/net/data_output.rs:108 | the two digits of a byte are its hex numeral zero-padded to width 2 |
| Numerals.Hex2Format | src/net/data_output.rs:108 | `{:02x}` of a byte is its zero-padded hex numeral and reads back as the byte |
| Numerals.Hex8Format | src/net/data_output.rs:69 | `{:08x}` of an offset below 2^32 is exactly 8 digits, and every offset reads back from its digits |
| DataOutputs.Printable | src/net/data_output.rs:139-141 | the wrapping `byte - 0x20 < 0x5f` holds exactly for `0x20 <= byte <= 0x7e` |
| DataOutputs.Shown | src/net/data_output.rs:127-131 | a printable byte is shown as itself and any other byte as `.`, so the column holds only characters from space to `~` |
| DataOutputs.ShownAll | src/net/data_output.rs:125-132 | the ASCII column shows each byte in its own position: the byte itself if printable, `.` otherwise |
| DataOutputs.Blanks | src/net/data_output.rs:76-78 | `k` empty hex cells are `3k` characters |
| DataOutputs.Cells | src/net/data_output.rs:106-108 | one 3-character cell per byte |
| DataOutputs.CellsAppend | src/net/data_output.rs:106-108 | the cells of consecutive byte runs concatenate |
| DataOutputs.HalfCells | src/net/data_output.rs:96-118 | a half line is always 8 cells wide |
| DataOutputs.CellsStep | src/net/data_output.rs:107-108 | printing one more cell extends the printed cells by that byte |
| DataOutputs.HalfCellsFull | src/net/data_output.rs:109-111 | a half line filled to its last column has no trailing padding |
| DataOutputs.HexColumns | src/net/data_output.rs:72-88 | the hex part of a line is 16 cells plus the separator between the halves |
| DataOutputs.AsciiColumns | src/net/data_output.rs:120-137 | the ASCII part of a line is 16 columns between two bars |
| DataOutputs.HexLineLayout | src/net/data_output.rs:62-94 | a dump line (`HexLine`) starts with its `{:08x}` offset and has a fixed width: 77 characters for every offset below 2^32, whatever its bytes and start column |
| DataOutputs.LineBytes | src/net/data_output.rs:70-88 | a line takes as many bytes as fit before column 16: at least one if any remain, and it fills the line when bytes are left over |
| DataOutputs.Chunks | src/net/data_output.rs:33-44 | the dump splits the bytes read into at most as many lines as bytes, and into none exactly when nothing was read |
| DataOutputs.ChunksCover | src/net/data_output.rs:33-44 | the dump lines cover the bytes read exactly, in order, with no byte repeated or skipped |
| DataOutputs.ChunksLayout | src/net/data_output.rs:33-44 | each line starts where the previous one ended and stays within 16 columns; every line after the first starts at a multiple of 16 |
| DataOutputs.DumpSize | src/net/data_output.rs:33-44 | `Dump` prints one line per chunk, never more lines than bytes, and nothing exactly when no byte was read |
| DataOutputs.DumpShowsChunk | src/net/data_output.rs:33-44 | dump line `i` is the hex line of chunk `i`, at the column its stream offset gives it |
| DataOutputs.DumpStep | src/net/data_output.rs:34-44 | one pass of the line loop keeps "lines printed followed by lines still to print" equal to the whole dump |
| DataOutputs.Side | src/net/data_output.rs:23 | a side is named by one character, and it is `A` exactly for the left peer |
| DataOutputs.HeaderLayout | src/net/data_output.rs:23-24 | the first line of a read (`Header`) is `X -> Y sent N bytes`: the sending side, then the other side, then a decimal numeral that reads back as the count |
| DataOutputs.BacklogLayout | src/net/data_output.rs:48-60 | the backlog line (`Backlog`) names the side; it is `X is synced` exactly when nothing is ready, and otherwise `X is N bytes behind` with a numeral that reads back as the ready count |
| DataOutputs.PrintBlankCells | src/net/data_output.rs:76-78 | the padding loop prints exactly `count` empty cells |
| DataOutputs.PrintHalfHex | src/net/data_output.rs:96-118 | consumes `min(remaining, 8 - h)` bytes and prints them as the half line that starts at column `h`, with leading and trailing padding |
| DataOutputs.PrintAscii | src/net/data_output.rs:120-137 | prints the bytes' ASCII column at their line position, padded to 16 columns and between bars |
| DataOutputs.HalvesFormColumnsFromFirst | src/net/data_output.rs:72-88 | when a line starts in the first half, the two `print_half_hex` calls together print its hex columns |
| DataOutputs.FitsFirstHalf | src/net/data_output.rs:81-88 | bytes that end in the first half leave the second half blank |
| DataOutputs.SpansBothHalves | src/net/data_output.rs:81-88 | bytes that fill the first half continue in the second half from column 0 |
| DataOutputs.HalvesFormColumnsFromSecond | src/net/data_output.rs:75-88 | when a line starts in the second half, the first half is blank and the second call prints the columns |
| DataOutputs.HalvesFormColumns | src/net/data_output.rs:72-88 | whichever half a line starts in, the two halves form its hex columns |
| DataOutputs.PrintHexLine | src/net/data_output.rs:62-94 | returns how many bytes fit on the line and prints exactly the dump line of those bytes |
| DataOutputs.PrintNextLine | src/net/data_output.rs:34-44 | one pass of the line loop prints the next dump line and moves forward by at least one byte, never past the bytes read |
| DataOutputs.PrintLines | src/net/data_output.rs:33-44 | the line loop prints exactly the dump of the bytes read, starting from the direction's stream offset |
| DataOutputs.DataOutput.constructor | src/net/data_output.rs:12-17 | both direction counters start at 0 |
| DataOutputs.DataOutput.PrintReadBytes | src/net/data_output.rs:22-45 | adds `read_bytes` to the direction's counter only, and prints the header followed by the dump, with offsets continuing from the old counter |
| DataOutputs.DataOutput.PrintRemainingBytes | src/net/data_output.rs:48-60 | `X is N bytes behind` with the buffer's ready count when it is positive, `X is synced` otherwise |
| Relays.ReadFrom | src/net/passthrough.rs:143 | a socket read into a slice of `len` bytes succeeds iff the peer's next reply is data; it then returns `min(len, available)` bytes, and a read that returned bytes moves the script forward |
| Relays.ReadTakesPending | src/net/passthrough.rs:143 | what a read returns, followed by what the script still holds, is what the script held: a partial read loses and reorders nothing |
| Relays.WriteTo | src/net/passthrough.rs:160 | a socket write succeeds iff the peer's next reply accepts; it takes no more than it is offered and no more than the peer's limit, all of it when the limit allows, and uses up one reply |
| Relays.ReadRound | src/net/passthrough.rs:55-65 | the reading half of a drain round offers the buffer's free room and never fails. It continues iff the read brought bytes, which join what the source gave, the queue and the counter, so the queue stays within capacity. It prints nothing when it stops and starts with the `sent` header when it continues |
| Relays.ReadRoundIdle | src/net/passthrough.rs:55-61 | for a read that brought nothing (an error or zero bytes): the round ends, only the source script advances, and nothing is printed |
| Relays.ReadRoundIs | src/net/passthrough.rs:55-65 | for a read that brought bytes `d`: the lane after the read, and the printed lines, which are the header, the dump of `d` from the old counter and the backlog line with the new queue length |
| Relays.Flush | src/net/passthrough.rs:150-163 | `write_channel` on a lane succeeds iff the destination accepts. The destination then gets the first `min(accepted, queued)` bytes of the queue; in every case the bytes sent followed by the queue are unchanged, and a failed write changes neither |
| Relays.FlushAndReport | src/net/passthrough.rs:66-74 | the forward after a read fails iff the destination is writable and its write fails; a destination that is not writable is left alone; the bytes sent followed by the queue are unchanged and the queue never grows |
| Relays.DrainRound | src/net/passthrough.rs:55-75 | a drain round stops the loop iff its read did; otherwise it has moved the source's script forward; it fails only when forwarding, and leaves a destination that is not writable alone |
| Relays.DrainAll | src/net/passthrough.rs:55-75 | the drain loop never lets the queue outgrow the buffer's capacity |
| Relays.DrainKeepsOrder | src/net/passthrough.rs:55-75 | whatever the peers reply, the drain keeps its direction in order (the destination was sent a prefix of what the source gave, the rest is queued), takes bytes only from the front of the source's script, and counts every byte read in the dump counter |
| Relays.DrainFailsOnlyOnWrite | src/net/passthrough.rs:55-72 | the drain returns an error only when it forwards: a read error or a read of nothing ends the loop without an error |
| Relays.DrainBlocked | src/net/passthrough.rs:55-75 | with a destination that is not writable, the drain never fails and never touches the destination; every byte read stays queued, so it reads no more than the buffer had room for |
| Relays.DrainStopsAtFirstEmptyRead | src/net/passthrough.rs:55-62 | the drain ends at once, printing nothing and changing only the source's script, iff its first read fails or brings nothing: a read error, end of stream, an exhausted script or a full buffer |
| Relays.DrainForwardsEverything | src/net/passthrough.rs:66-73 | with a writable destination that accepts whatever it is offered, a drain that starts from an empty queue and succeeds leaves the queue empty: every byte read was forwarded |
| Relays.LeftReadable | src/net/passthrough.rs:54-77 | a left readable event keeps the left-to-right direction in order and takes bytes only from the left peer's script; it leaves the other direction and `left_writable` alone and clears `right_writable` unless a write failed |
| Relays.RightReadable | src/net/passthrough.rs:93-116 | the mirror image for the right peer |
| Relays.LeftWritable | src/net/passthrough.rs:78-90 | a left writable event keeps the left-to-right direction in order, never lengthens its queue, and leaves the other direction and `right_writable` alone |
| Relays.RightWritable | src/net/passthrough.rs:117-129 | the mirror image for the right peer |
| Relays.Step | src/net/passthrough.rs:51-133 | one event keeps both queues within the buffers' capacity |
| Relays.Run | src/net/passthrough.rs:48-51 | a run of events keeps both queues within the buffers' capacity |
| Relays.StepConserves | src/net/passthrough.rs:51-133 | every event keeps both directions in order and takes bytes only from the front of the peers' scripts; an event on one peer leaves the lane bound for that peer untouched |
| Relays.StepFlags | src/net/passthrough.rs:51-133 | a completed drain of one peer clears the other peer's writable flag. A writable event on a peer with an empty buffer only sets its own flag. With a non-empty buffer it is a flush of that buffer, which fails exactly when the write fails. An event that is neither readable nor writable changes nothing |
| Relays.RunConserves | src/net/passthrough.rs:48-51 | a run that succeeds handled every event and one that fails stopped short of the end; both directions stay in order, and bytes are taken only from the front of the scripts |
| Passthroughs.Stream.Read | src/net/passthrough.rs:143 | a scripted socket read: the result, the script left and the peer's log are what `ReadFrom` gives, and the log grows by exactly the bytes returned |
| Passthroughs.Stream.Write | src/net/passthrough.rs:160 | a scripted socket write: the result and the script left are what `WriteTo` gives, and the peer's log grows by exactly the prefix it accepted |
| Passthroughs.ReadChannel | src/net/passthrough.rs:137-148 | offers the peer exactly the buffer's free room. It succeeds iff the peer hands over bytes (possibly none, at end of stream); it then returns their number, and the queue becomes the old queue followed by those bytes. A failed read changes nothing in the buffer |
| Passthroughs.ReadChannelAsWritten | src/net/passthrough.rs:137-148 | the same read with `buffer_read` as written: the queue grows by the bytes read, except that a read of nothing into an empty buffer makes the whole stale storage the queue |
| Passthroughs.WriteChannel | src/net/passthrough.rs:150-163 | copies the whole queue into the event buffer and offers it. The bytes the peer accepted are the first ones of the queue, and exactly those are retired. A failed write leaves the queue as it was |
| Passthroughs.WriteChannelAsWritten | src/net/passthrough.rs:150-163 | the same write with `advance_tail` as written: the accepted prefix is retired, except that a write of zero bytes from a full buffer empties the queue |
| Passthroughs.ReadIntoLane | src/net/passthrough.rs:55-59 | `read_channel` on a direction: it takes the source's next reply, and the bytes it brings join both the source's log and the queue |
| Passthroughs.ReportRead | src/net/passthrough.rs:63-65 | the lines a read of the bytes `d` prints: the header, the dump of `d` from the old counter, and the backlog line with the buffer's ready count; only that direction's counter grows, by the length of `d` |
| Passthroughs.ReportArrival | src/net/passthrough.rs:63-65 | once a read has brought bytes into the lane, the report completes the round: the new lane and the printed lines are those `Relays.ReadRound` gives for the lane the read started from, and the other counter is unchanged |
| Passthroughs.ReadAndReport | src/net/passthrough.rs:55-65 | its result, new lane and printed lines are exactly those `Relays.ReadRound` gives for the old lane |
| Passthroughs.ForwardAndReport | src/net/passthrough.rs:66-74 | its result, new lane and printed lines are exactly those `Relays.FlushAndReport` gives for the old lane |
| Passthroughs.DrainStep | src/net/passthrough.rs:55-75 | its result, new lane and printed lines are exactly those `Relays.DrainRound` gives for the old lane |
| Passthroughs.Drain | src/net/passthrough.rs:55-75 | the drain loop: its result, new lane and printed lines are exactly those `Relays.DrainAll` gives for the old lane, and the other direction's counter is unchanged |
| Passthroughs.Passthrough.constructor | src/net/passthrough.rs:19-46 | two empty buffers of the given size, a zeroed event buffer, zero counters, both writable flags set and nothing printed |
| Passthroughs.Passthrough.Settle | src/net/passthrough.rs:76 | after a drain of one peer (line 115 for the right peer): the other peer's write flag is cleared when the drain ended without a failed write, the printed lines join the transcript, and nothing else in the relay changes |
| Passthroughs.Passthrough.OnLeftReadable | src/net/passthrough.rs:54-77 | its result and the new relay state are exactly `Relays.LeftReadable` of the old state |
| Passthroughs.Passthrough.OnRightReadable | src/net/passthrough.rs:93-116 | its result and the new relay state are exactly `Relays.RightReadable` of the old state |
| Passthroughs.Passthrough.OnLeftWritable | src/net/passthrough.rs:78-90 | its result and the new relay state are exactly `Relays.LeftWritable` of the old state |
| Passthroughs.Passthrough.OnRightWritable | src/net/passthrough.rs:117-129 | its result and the new relay state are exactly `Relays.RightWritable` of the old state |
| Passthroughs.Passthrough.HandleEvent | src/net/passthrough.rs:51-133 | its result and the new relay state are exactly `Relays.Step` of the old state |
| Passthroughs.Passthrough.RunEvents | src/net/passthrough.rs:48-51 | its result, the number of events handled and the new relay state are exactly `Relays.Run` of the old state: it handles every event when it succeeds, and conservation holds throughout |
| Passthroughs.StaleStorage | src/net/circular_buffer.rs:52-66 | the storage of a 4-byte buffer after `[1, 2]` is stored and then nothing is stored; the 4-byte window from index 2 |
| Passthroughs.ForwardFirstBytes | src/net/passthrough.rs:55-73 | two bytes from the left peer are read and forwarded whole, which leaves the left buffer empty at index 2 |
| Passthroughs.CloseThenFlush | src/net/passthrough.rs:137-163 | with the original buffer operations: the left peer's end of stream on the empty buffer, followed by a flush, sends the 4 stale storage bytes to the right peer |
| Passthroughs.EndOfStreamReplaysStaleBytes | src/net/passthrough.rs:78-85 | as written: the left peer sends `[1, 2]` and closes, and the right peer receives `[1, 2, 0, 0, 1, 2]` |

## Left out

- The readiness multiplexer (`mio::Poll`, registration, `Events`) is not modelled. Its output is a sequence of `Event` values.
- The infinite `loop` of `run` is not modelled. `RunEvents` handles any finite sequence of events.
- Sockets are replaced by scripted peers. An exhausted script stands for "would block", which the source's `while let Ok(..)` treats like any other error. The model does not tell would-block apart from fatal errors, and neither does the source's drain loop.
- `Passthroughs.ReadChannel` calls the corrected `buffer_read`: a read of nothing into an empty buffer leaves it empty, where the source queues the whole stale storage. The original is `Passthroughs.ReadChannelAsWritten`.
- `Passthroughs.WriteChannel` calls the corrected `advance_tail`: a write of zero bytes from a full buffer keeps the queue, where the source empties it. The original is `Passthroughs.WriteChannelAsWritten`.
- `Passthroughs.ReadIntoLane`, `Passthroughs.ReadAndReport`, `Passthroughs.ForwardAndReport`, `Passthroughs.DrainStep`, `Passthroughs.Drain` and the `Relays` functions they are proved against run the corrected `buffer_read` and `advance_tail`. The original relay's behaviour after a zero-byte read or write is shown only by the scenarios listed under "## Findings".
- `Passthroughs.Passthrough.OnLeftReadable`, `Passthroughs.Passthrough.OnRightReadable`, `Passthroughs.Passthrough.OnLeftWritable`, `Passthroughs.Passthrough.OnRightWritable`, `Passthroughs.Passthrough.HandleEvent` and `Passthroughs.Passthrough.RunEvents` run the corrected buffer operations, as above.
- `CircularBuffers.CircularBuffer.BufferRead` requires `buf.len() <= free_bytes()`. The source's comment (`circular_buffer.rs:51`) only asks that `buf` be no larger than the buffer, and the code does not check either. With `free_bytes() < buf.len() <= SIZE` the source silently overwrites queued bytes; the model does not cover that case. `read_channel` never offers more than `free_bytes()`, so the relay never reaches it.
- `CircularBuffers.CircularBuffer.BufferWrite` requires `0 < len == ready_bytes()`, which is how the relay always calls it. With other lengths the source's `copy_from_slice` panics, or, when `head` is 0, leaves the extra bytes of `dest` alone.
- `DataOutputs.PrintHalfHex` requires a start column below 8, which both calls in `print_hex_line` satisfy.
- `usize` counters and offsets are unbounded integers. Overflow after 2^64 bytes is not modelled.
- `Numerals.Hex8Format` gives the exact width only below 2^32. Larger offsets print more digits, as `{:08x}` does.
- Printing to standard output becomes returned strings, one per line, with the line terminator implied.
- `main.rs` (address parsing and socket setup), logging, and the `Default` implementations are not part of this model.
- `BUFFER_SIZE` is a parameter of the `Passthrough` constructor. `src/net/mod.rs` is not part of this model.

## Findings

| source | as written | input that shows it | evidently intended | confidence | as-written member | corrected member |
|---|---|---|---|---|---|---|
| src/net/circular_buffer.rs:62-65 | `buffer_read` sets the full flag whenever `head == tail` after the copy, including for an empty slice on an empty buffer. `read_channel` makes exactly that call when a peer reaches end of stream with nothing queued | capacity 4; the left peer sends `[1, 2]` and closes, and the right peer accepts everything. The right peer receives `[1, 2, 0, 0, 1, 2]` | an empty `buffer_read` leaves the buffer unchanged | high (not executed) | Passthroughs.EndOfStreamReplaysStaleBytes | CircularBuffers.CircularBuffer.BufferReadCorrected |
| src/net/circular_buffer.rs:84-87 | `advance_tail` clears the full flag even when `offset` is 0, so a write of zero bytes from a full buffer discards the whole queue | capacity 4: `buffer_read([1, 2, 3, 4])` then `advance_tail(0)` leaves `ready_bytes() == 0` | the full flag is cleared only when bytes are retired | high (not executed) | CircularBufferScenarios.AdvanceZeroOnFullBuffer | CircularBuffers.CircularBuffer.AdvanceTailCorrected |
