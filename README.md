# A verified model of the playground's small sequential components

The playground repository gathers unrelated Go, Rust and Python snippets. This project models its
small, sequential components in Dafny and proves what they promise:

- **The queueing-network simulator and its load estimator** (`algorithm/queuing/pkg`). The simulator
  is a class of service units with a cost, a queue and a timer, redispatching every served request
  round robin. `QueuingSimulator` proves that the number of queued requests stays equal to the
  number of users and that busy timers stay below the cost. `QueuingModel` proves how a load splits
  over processors.
- **The framed log storage stack.**
  - `LittleEndian`, `BytesIoCommon`, `BytesIoFrame` and `Chunking` cover the `u128` field codecs,
    the version block and the cutting of a payload into zero-padded frames.
  - `BytesIoFormat` and `BytesIo` cover the `bytes_io` file: a meta block followed by frames. The
    file is an in-memory byte sequence (`FileImage`).
  - `SegmentCodec` and `SegFile` cover the segment file of `segment_io`.
  - `LsFile` covers the log-structured file of `lsmt`, with its key index and compaction.
- **The text protocol of `ping-pong`.** It resembles the Redis serialization protocol, but arrays
  carry an extra closing CRLF; the model follows the code. `PingPongError`, `Decimal`, `Text` and
  `PingPong` cover the error codec, the serialiser and the parser with its error paths.
- **Three key-value stores.** `KvsMemory` is a map. `KvsReplay` rebuilds the map by replaying a
  write-ahead log. `KvsIndex` maps keys to positions in the log and includes the engine's shared
  store.
- **Small algorithms.**
  - `SmoothWrr`: one step of smooth weighted round robin.
  - `BigCacheAlloc`: power-of-two rounding and the cache configuration.
  - `Rgrep`: line search with optional case folding.
  - `LeetcodeTree`: the level-order array to binary tree builder.
  - `MapReduce` and `MapReduceMaster`: task construction and locality-preferring task allocation.
  - `RaftGrpc`: the end point and log position wire conversions of the consensus example.

A Rust panic on data (`unwrap`, `assert!`, arithmetic overflow, `unimplemented!`) is an explicit
`Panics` outcome or a `Panic` error. It is not a precondition. Integer widths (`u16`, `i64`, `usize`,
`u128`) are written out where a cast or an overflow changes the result: among them the `as usize`
casts of the `u128` sizes stored in files and headers, the `usize` sums and products built from
them, the `i64` cast of the seek back to a file's last frame, and the `isize::MAX` bound on a
reserved capacity.

Where the program's files disagree, each file's own logic is modelled:
- `master.rs` has a `TaskType::Any` that `map_reduce/src/lib.rs` lacks, so `MapReduceMaster` has its
  own task type.
- `ls_file.rs` writes a two-field index entry while `lsf/entry.rs` declares one field; the model
  follows `ls_file.rs`.

## Model

| member | source | states |
|---|---|---|
| QueuingSimulator.SimUnit.constructor | algorithm/queuing/pkg/simulator.go:16-22 | a new unit has the given cost, an empty queue and a zero timer |
| QueuingSimulator.SimUnit.NextTransformation | algorithm/queuing/pkg/simulator.go:24-31 | no next event exactly when the queue is empty; otherwise, with the timer not past the cost, the event is `cost - timer` away |
| QueuingSimulator.SimUnit.Transform | algorithm/queuing/pkg/simulator.go:33-47 | the unit's new state and the completion flag are one `Step`: a busy unit adds `sep` to its timer and completes (queue - 1, timer - cost) once the timer reaches the cost; an idle unit resets its timer |
| QueuingSimulator.SimUnit.Alloc | algorithm/queuing/pkg/simulator.go:49-51 | the queue grows by one and nothing else changes |
| QueuingSimulator.MakeUnits | algorithm/queuing/pkg/simulator.go:65-68 | one new, distinct, idle unit per cost, in the order of the costs |
| QueuingSimulator.Simulator.constructor | algorithm/queuing/pkg/simulator.go:60-68 | the simulator starts with one idle unit per cost and the round-robin cursor at 0 |
| QueuingSimulator.NewSimulator | algorithm/queuing/pkg/simulator.go:59-76 | the units are the stably cost-sorted idle units with `users` requests dispatched round robin from unit 0; the requests in the system equal the users from the start |
| QueuingSimulator.SortByCostSorts | algorithm/queuing/pkg/simulator.go:69-71 | the stable sort by cost yields ascending costs and a permutation of the input costs |
| QueuingSimulator.InsertAscending | algorithm/queuing/pkg/simulator.go:69-71 | inserting a cost into an ascending list keeps it ascending |
| QueuingSimulator.InsertMultiset | algorithm/queuing/pkg/simulator.go:69-71 | inserting adds exactly that cost to the multiset of costs |
| QueuingSimulator.Simulator.NextTransformationAsWritten | algorithm/queuing/pkg/simulator.go:78-90 | the loop as written: the least remaining time over the busy units, but a panic whenever the last unit is idle |
| QueuingSimulator.Simulator.NextTransformation | algorithm/queuing/pkg/simulator.go:78-90 | the least remaining time over the busy units, and a panic only when every unit is idle |
| QueuingSimulator.LastUnitIdlePanics | algorithm/queuing/pkg/simulator.go:80-88 | for the simulator built from costs 1s, 2s and one user, the first unit is busy yet the as-written rule panics, while the intended rule answers 1s |
| QueuingSimulator.Simulator.Transform | algorithm/queuing/pkg/simulator.go:92-100 | every unit takes one `Step` of `sep`, and the result is the number of units that completed a request |
| QueuingSimulator.StepConserves | algorithm/queuing/pkg/simulator.go:92-100 | a step lowers the requests in the system by exactly the completions it returns |
| QueuingSimulator.Simulator.Alloc | algorithm/queuing/pkg/simulator.go:102-107 | `k` requests are handed out one per unit in cyclic order from the cursor: the new units are `AllocAll` of the old units and cursor, and the new cursor is `CursorAfter` it (`k` places on, modulo the unit count, by `CursorAfterMod`) |
| QueuingSimulator.Simulator.AllocOne | algorithm/queuing/pkg/simulator.go:104-105 | the unit under the cursor gets one request and the cursor moves to the next unit, wrapping round |
| QueuingSimulator.AllocAdds | algorithm/queuing/pkg/simulator.go:102-107 | allocating `k` requests raises the total by exactly `k` (none for `k <= 0`) and leaves costs and timers alone |
| QueuingSimulator.CursorAfter | algorithm/queuing/pkg/simulator.go:105 | the cursor stays an index of a unit |
| QueuingSimulator.CursorAfterMod | algorithm/queuing/pkg/simulator.go:103-106 | after `k` allocations from cursor `rr` over `n` units the cursor is `(rr + k) % n` |
| QueuingSimulator.Simulator.Run | algorithm/queuing/pkg/simulator.go:109-128 | it panics exactly when there are no users and the duration is at least a second; otherwise one count per whole second of the duration (none for less than a second), second `i` being `SecondFrom` the units and cursor where second `i - 1` ended (the starting state for the first), its count that second's completions, and the simulator ends in the state the last second leaves; the requests in the system stay equal to the users and every busy timer stays in `[0, cost)` |
| QueuingSimulator.Simulator.RunSecond | algorithm/queuing/pkg/simulator.go:113-126 | the second's completions, its step lengths and the new units and cursor are `SecondFrom` the old units and cursor over a whole second; the conservation and timer invariants are kept |
| QueuingSimulator.Simulator.Tick | algorithm/queuing/pkg/simulator.go:117-125 | panics exactly when there are no users; otherwise the step is `min(next event, rest of the second)`, between 1ns and the rest; the completions are those of every unit stepping that long; the new units are those completions re-dispatched round robin from the old cursor (`AllocAll`) and the cursor is `CursorAfter` them; both invariants are kept |
| QueuingSimulator.Simulator.Advance | algorithm/queuing/pkg/simulator.go:120-124 | a step no longer than the next event: the completions are those of every unit stepping that long, the new units and cursor are their round-robin re-dispatch, and both invariants are kept |
| QueuingSimulator.TickOfKeeps | algorithm/queuing/pkg/simulator.go:117-125 | under the timer invariant one tick within a positive rest of the second takes between 1ns and that rest, keeps the timer invariant and keeps the requests in the system |
| QueuingSimulator.SecondKeeps | algorithm/queuing/pkg/simulator.go:113-126 | the rest of a second is cut into steps of at least 1ns that add up to exactly that rest (none for no rest), keeping the timer invariant and the requests in the system |
| QueuingSimulator.TicksSecond | algorithm/queuing/pkg/simulator.go:117-126 | ticks each taken, while some of the second is left, from the units and cursor where the one before left off, and using up the rest of the second, are that rest of the second: their completions, their step lengths, and the units and cursor they end with are `SecondFrom`'s |
| QueuingSimulator.TickKeeps | algorithm/queuing/pkg/simulator.go:118-124 | on values: a step no longer than the next event, then the re-dispatch of its completions, keeps the timer invariant and the total number of requests |
| QueuingSimulator.StepKeepsTimers | algorithm/queuing/pkg/simulator.go:33-47 | a step no longer than any busy unit's remaining time keeps every timer in `[0, cost)`, and a completing unit's timer is exactly 0 |
| QueuingSimulator.EarliestPositive | algorithm/queuing/pkg/simulator.go:24-31 | under the timer invariant the next event is at least 1ns away and the remaining time is `cost - timer`, so the absolute value is redundant |
| QueuingSimulator.EarliestBelow | algorithm/queuing/pkg/simulator.go:79-85 | the computed minimum is at most the starting value and at most every busy unit's remaining time |
| QueuingSimulator.NextIntendedOk | algorithm/queuing/pkg/simulator.go:78-90 | under the timer invariant the next event exists exactly when requests are queued, and is at least 1ns away |
| QueuingSimulator.TotalPositiveBusy | algorithm/queuing/pkg/simulator.go:86-88 | the system holds requests exactly when some unit is busy |
| QueuingSimulator.ZeroCostStalls | algorithm/queuing/pkg/simulator.go:117-126 | a busy unit of cost 0 makes the next event 0ns away, so a step does not shorten the second |
| QueuingModel.NewProcessorState | algorithm/queuing/pkg/model.go:19-34 | the floor share is at most `qps / others` and the ceiling share at least, and they differ by at most one |
| QueuingModel.IncomeShares | algorithm/queuing/pkg/model.go:20-21 | the floor share never exceeds the ceiling share, and they are equal exactly when `qps` is a whole multiple of `others` |
| QueuingModel.RemainBounds | algorithm/queuing/pkg/model.go:23-30 | both backlogs are non-negative, the floor backlog is at most the ceiling backlog, and for non-negative speed and `qps` each backlog is at most its income |
| QueuingModel.RemainsScale | algorithm/queuing/pkg/model.go:23-32 | over a non-negative period, each integer backlog times `seconds` is at most the period backlog |
| QueuingModel.RemainsOrdered | algorithm/queuing/pkg/model.go:23-32 | over a non-negative period, both period backlogs are non-negative and the floor share's is at most the ceiling share's |
| QueuingModel.RemainsBelowNext | algorithm/queuing/pkg/model.go:23-32 | over a positive period, each period backlog is below one more than the integer backlog, times `seconds` |
| QueuingModel.NewProcessor | algorithm/queuing/pkg/processor.go:10-15 | the processor keeps its own throughput, and its state is the load state of its throughput, share bounds included |
| QueuingModel.NewProcessorSet | algorithm/queuing/pkg/processor.go:25-33 | one processor per throughput in input order, each with that throughput and the load state for `others = len(tpss)` and the same `qps` |
| QueuingModel.SharesCover | algorithm/queuing/pkg/processor.go:25-33 | every processor gets the same shares whatever its speed, and the floor shares add up to at most `qps`, the ceiling shares to at least `qps` |
| LittleEndian.DecodeEncode | rust/projects/lib/bytes_io/src/frame.rs:41-45 | reading back `n` little-endian bytes of a number below `256^n` gives the number |
| LittleEndian.EncodeDecode | rust/projects/lib/bytes_io/src/frame.rs:62-66 | re-encoding the number read from `n` bytes gives those bytes |
| LittleEndian.U128RoundTrip | rust/projects/lib/bytes_io/src/frame.rs:41-45 | a `u128` written as 16 bytes reads back as itself |
| LittleEndian.BytesRoundTrip | rust/projects/lib/bytes_io/src/frame.rs:62-66 | any 16 bytes read as a `u128` write back as the same bytes |
| LittleEndian.FieldAtFields | rust/projects/lib/bytes_io/src/frame.rs:59-68 | the k-th 16-byte field of a run of written fields is the k-th value |
| LittleEndian.FieldsOfFieldAt | rust/projects/lib/bytes_io/src/frame.rs:56-69 | writing back the fields read from `16n` bytes gives those bytes |
| BytesIoCommon.VersionBytes | rust/projects/lib/bytes_io/src/common.rs:43-52 | the encoding is exactly `VERSION_BYTES` (48) bytes |
| BytesIoCommon.VersionRoundTrip | rust/projects/lib/bytes_io/src/common.rs:43-77 | decoding the encoding of a version gives the version |
| BytesIoCommon.VersionBytesRoundTrip | rust/projects/lib/bytes_io/src/common.rs:61-77 | any 48 bytes decode to a version whose encoding is those bytes |
| BytesIoCommon.VersionTextInjective | rust/projects/lib/bytes_io/src/common.rs:55-59 | the `major.minor.patch` text determines the version |
| BytesIoCommon.CurrentVersion | rust/projects/lib/bytes_io/src/common.rs:17-19 | the current version is 1.0.0, prints as "1.0.0", is compatible, and a version is compatible exactly when its major number is the current one, whatever its minor and patch |
| BytesIoCommon.NewEntryOffset | rust/projects/lib/bytes_io/src/common.rs:105-112 | the offset keeps its file id, entry sequence number and first frame unchanged |
| BytesIoFrame.HeaderBytes | rust/projects/lib/bytes_io/src/frame.rs:38-50 | the header encoding is exactly `HEADER_SIZE` (80) bytes |
| BytesIoFrame.HeaderRoundTrip | rust/projects/lib/bytes_io/src/frame.rs:38-69 | decoding the encoding of a header gives the header |
| BytesIoFrame.HeaderBytesRoundTrip | rust/projects/lib/bytes_io/src/frame.rs:56-69 | any 80 bytes decode to a header whose encoding is those bytes |
| BytesIoFrame.NewFrame | rust/projects/lib/bytes_io/src/frame.rs:95-105 | the frame keeps its header, its payload is zero-padded to `size as usize`, and `payload()` gives back the data passed in, which is `length as usize` bytes long |
| BytesIoFrame.Payload | rust/projects/lib/bytes_io/src/frame.rs:116-118 | when the payload holds `length as usize` bytes (the slice panics otherwise), the frame's data is exactly those first bytes of the payload |
| BytesIoFrame.FrameBytes | rust/projects/lib/bytes_io/src/frame.rs:107-113 | the encoding is the header's 80 bytes plus the whole payload |
| BytesIoFrame.FrameRoundTrip | rust/projects/lib/bytes_io/src/frame.rs:107-135 | decoding the encoding of a frame gives the frame |
| BytesIoFrame.FrameBytesRoundTrip | rust/projects/lib/bytes_io/src/frame.rs:125-135 | any bytes of at least header size decode to a frame whose encoding is those bytes |
| BytesIoFrame.Create | rust/projects/lib/bytes_io/src/frame.rs:155-196 | the split-off loop yields exactly the frames `CreatedFrames` describes |
| BytesIoFrame.CreatedFrames | rust/projects/lib/bytes_io/src/frame.rs:155-160 | there are `len / limit` frames, rounded up |
| BytesIoFrame.CreatedHeaders | rust/projects/lib/bytes_io/src/frame.rs:171-192 | frame i has `frame_seq` i, `total` the frame count, `size` the limit, the given `entry_seq`, a payload padded to the limit and a header `Header::new` accepts; it is first exactly when i is 0; every frame but the last is full and the last holds `len mod limit`, or a full limit when the division is exact |
| BytesIoFrame.NoFramesForNothing | rust/projects/lib/bytes_io/src/frame.rs:155-160 | an empty payload gives no frames |
| BytesIoFrame.CreatedJoin | rust/projects/lib/bytes_io/src/frame.rs:171-192 | joining the `payload()` of the created frames in order gives back the payload |
| Chunking.Chunks | rust/projects/lib/bytes_io/src/frame.rs:171-178 | the payload is cut into `len / limit` (rounded up) pieces, each non-empty and at most `limit` long |
| Chunking.ChunksFlatten | rust/projects/lib/bytes_io/src/frame.rs:171-192 | the pieces joined in order give back the payload |
| Chunking.ChunkLengths | rust/projects/lib/bytes_io/src/frame.rs:172-178 | every piece but the last is `limit` long, the last `len mod limit` or `limit` when the division is exact |
| Chunking.CeilDivBound | rust/projects/lib/bytes_io/src/frame.rs:156-160 | there are never more pieces than bytes |
| Chunking.Pad | rust/projects/lib/bytes_io/src/frame.rs:99-101 | the padded payload has the requested size, starts with the original bytes and is filled with the fill value after them |
| LittleEndian.Encode | rust/projects/lib/bytes_io/src/frame.rs:41-45 | a number written as a little-endian field takes exactly the field's width |
| LittleEndian.Decode | rust/projects/lib/bytes_io/src/frame.rs:62-66 | a little-endian field reads as a number below 256 to the power of its width |
| BytesIoFormat.NewMetaFrameLen | rust/projects/lib/bytes_io/src/bytes_io.rs:35-47 | a new meta block announces `HEADER_SIZE`-byte headers and a compatible version, so a frame is `HEADER_SIZE + payload_bytes as usize` long, which is `HEADER_SIZE + payload_bytes` for a payload size below 2^64 |
| BytesIoFormat.MetaBytes | rust/projects/lib/bytes_io/src/bytes_io.rs:49-60 | the meta block is exactly `META_BYTES` (96) bytes |
| BytesIoFormat.MetaLayout | rust/projects/lib/bytes_io/src/bytes_io.rs:49-55 | the meta block starts with the version's own 48-byte encoding, followed by uuid, header size and payload size |
| BytesIoFormat.MetaRoundTrip | rust/projects/lib/bytes_io/src/bytes_io.rs:49-83 | decoding an encoded meta block gives it back when its version is compatible, and refuses it with `Incompatible(current, version)` exactly when it is not |
| BytesIoFormat.MetaBytesRoundTrip | rust/projects/lib/bytes_io/src/bytes_io.rs:65-83 | 96 bytes that decode re-encode to themselves |
| BytesIoFormat.ReadEntryStart | rust/projects/lib/bytes_io/src/bytes_io.rs:253-263 | after a first frame, reading an entry is reading its `total - 1` continuation frames |
| BytesIoFormat.ReadRestStep | rust/projects/lib/bytes_io/src/bytes_io.rs:263-274 | a continuation frame that passes the entry and sequence checks appends its payload and moves the read on by one frame |
| BytesIoFormat.FramesBytesLength | rust/projects/lib/bytes_io/src/bytes_io.rs:45-47 | frames of the announced length take `count * frame_len` bytes |
| BytesIoFormat.ReadFrameOf | rust/projects/lib/bytes_io/src/bytes_io.rs:357-371 | `read_frame` where a frame's bytes lie gives that frame and moves the reader by one frame length |
| BytesIoFormat.ReadLaidFrames | rust/projects/lib/bytes_io/src/bytes_io.rs:357-371 | in a file of frames laid end to end, reading at each boundary gives that frame and ends at the next boundary |
| BytesIoFormat.ReadEntryAlong | rust/projects/lib/bytes_io/src/bytes_io.rs:253-298 | along a run of frames of one entry numbered from 0, whose first announces the run's length, `read_entry` (checking the numbering `create` writes) gives all their payloads joined |
| BytesIoFormat.ReadBackEntry | rust/projects/lib/bytes_io/src/bytes_io.rs:253-319 | whatever precedes them in the file, the frames `append` writes for a non-empty payload read back as that payload, and the reader ends right after them |
| BytesIoFormat.CreatedLaid | rust/projects/lib/bytes_io/src/frame.rs:155-196 | `create`'s frames have the announced length, there is at least one, the first is first and announces their count, all carry the entry's sequence number and frame i carries `frame_seq` i |
| BytesIoFormat.ReadBackEntryAsWritten | rust/projects/lib/bytes_io/src/bytes_io.rs:258-274 | as written (the check expects `frame_seq == frame_count` from 0), reading back any entry longer than one frame panics on its second frame |
| BytesIoFormat.ReadHeaderOf | rust/projects/lib/bytes_io/src/bytes_io.rs:378-388 | `read_header` where a frame's bytes lie gives that frame's header |
| BytesIoFormat.ReadLaidHeader | rust/projects/lib/bytes_io/src/bytes_io.rs:418-432 | in a file of frames laid end to end, the header at `start + frame_len * k` is frame k's |
| BytesIoFormat.BoundaryAt | rust/projects/lib/bytes_io/src/bytes_io.rs:421 | the k-th frame boundary lies `frame_len * k` bytes after the meta block |
| BytesIoFormat.SeekAppended | rust/projects/lib/bytes_io/src/bytes_io.rs:300-338 | seeking the offset `append` returned finds the entry, and the same offset with another sequence number is reported as `EntryMismatch(asked, found)`; only a frame position beyond `usize` panics instead |
| BytesIoFormat.SeekLaid | rust/projects/lib/bytes_io/src/bytes_io.rs:321-338 | unless frame k's position overflows `usize`, which panics, seeking frame k of this file succeeds exactly when the asked sequence number is that frame's, else it is a mismatch |
| BytesIoFormat.FrameCount | rust/projects/lib/bytes_io/src/bytes_io.rs:228-238 | no bytes after the meta block are no frames; otherwise a count is returned exactly when `frame_len` (the two sizes cast to `usize` and added) does not overflow, is positive and divides those bytes, and that count times `frame_len` is exactly those bytes |
| BytesIoFormat.OpenLaid | rust/projects/lib/bytes_io/src/bytes_io.rs:203-251 | opening a file of a compatible meta block and whole frames gives back the meta block, the number of frames and the last frame's sequence number plus one when `frame_len` is below 2^63; at exactly 2^63 negating `frame_len as i64` panics, between 2^63 and 2^64 the seek lands past the end and the sequence number restarts at 0, and from 2^64 on `frame_len` panics |
| BytesIoFormat.FramePos | rust/projects/lib/bytes_io/src/bytes_io.rs:418-421 | `seek_frame`'s position exists exactly when `frame_len` and `META_BYTES + frame_len * n` stay below 2^64, and is that sum |
| BytesIoFormat.LastHeaderPos | rust/projects/lib/bytes_io/src/bytes_io.rs:240-241 | the seek back to the last header panics exactly when `frame_len` overflows or is 2^63; below 2^63 it lands one frame before the end when the file holds a frame, else at the end; above 2^63 it lands past the end |
| BytesIoFormat.FrameCountLaid | rust/projects/lib/bytes_io/src/bytes_io.rs:228-238 | the frame count of a file of whole frames is their number |
| BytesIoFormat.NextEntrySeqLaid | rust/projects/lib/bytes_io/src/bytes_io.rs:240-246 | the sequence number `open` takes up is one past the last frame's |
| BytesIoFormat.ClobberedMeta | rust/projects/lib/bytes_io/src/bytes_io.rs:154-157 | frames written at position 0 overwrite the meta block so that its version reads as (first frame length, frame size, entry sequence number), which reopening refuses as incompatible whenever the first frame holds more than one byte |
| BytesIoFormat.LaidAppend | rust/projects/lib/bytes_io/src/bytes_io.rs:403-416 | frames written at the end of a laid-out file make it the meta block followed by the old and the new frames |
| BytesIo.BytesIO.constructor | rust/projects/lib/bytes_io/src/bytes_io.rs:151-171 | a new handle has both positions at the start, sequence number 0 and no frames counted |
| BytesIo.BytesIO.ReadFrame | rust/projects/lib/bytes_io/src/bytes_io.rs:357-371 | the frame read and the new reader position are `ReadFrameAt` of the file at the old position: `header_bytes as usize + payload_bytes as usize` bytes, the sum panicking when it overflows |
| BytesIo.BytesIO.ReadHeader | rust/projects/lib/bytes_io/src/bytes_io.rs:378-388 | the header read and the new reader position are `ReadHeaderAt` of the file at the old position: `header_bytes as usize` bytes, which must be exactly a header's 80 |
| BytesIo.BytesIO.ReadEntry | rust/projects/lib/bytes_io/src/bytes_io.rs:253-298 | the entry read and the new reader position are `ReadEntryAt` with the numbering `create` writes, where frame lengths, payload lengths and the reserved capacity are cast to `usize` and their overflows panic |
| BytesIo.BytesIO.FinishEntry | rust/projects/lib/bytes_io/src/bytes_io.rs:254-298 | after the first frame of an entry was read: an error, the end of the file, a frame from the middle of an entry, a capacity `payload_bytes * total` beyond `usize` or `isize::MAX`, a `length as usize` beyond the payload or a zero count are reported as `read_entry` reports them; otherwise the continuation frames are read |
| BytesIo.BytesIO.ReadContinuation | rust/projects/lib/bytes_io/src/bytes_io.rs:263-281 | the loop over the continuation frames computes `ReadRest` from the first frame's payload, each frame's data being its first `length as usize` bytes |
| BytesIo.BytesIO.WriteFrames | rust/projects/lib/bytes_io/src/bytes_io.rs:403-416 | a read-only handle is refused and nothing changes; otherwise the frames' bytes are written at the writer's position, which moves past them, and the frame count grows by their number |
| BytesIo.BytesIO.Append | rust/projects/lib/bytes_io/src/bytes_io.rs:300-319 | a zero frame size panics and a read-only handle is refused, both without change; otherwise `create`'s frames for the payload are written and the offset names this file, the current sequence number and the first frame written; appending to a laid-out file keeps it laid out |
| BytesIo.BytesIO.SeekFrame | rust/projects/lib/bytes_io/src/bytes_io.rs:418-432 | the position `META_BYTES + frame_len * n` is computed in `usize`, and each of its overflows panics and leaves the reader; otherwise the header returned is the one at that position, and the reader is left there |
| BytesIo.BytesIO.SeekEntry | rust/projects/lib/bytes_io/src/bytes_io.rs:321-338 | the result is `SeekEntryResult`: another file's offset is not found and leaves the reader, a first-frame position beyond `usize` panics and leaves it too; otherwise the reader is at the entry's first frame |
| BytesIo.Create | rust/projects/lib/bytes_io/src/bytes_io.rs:173-201 | an existing path is refused unchanged; otherwise the file is created, a zero payload size is refused leaving it empty, and otherwise it holds exactly a new meta block, is laid out, and the reader is after the meta block |
| BytesIo.OpenWith | rust/projects/lib/bytes_io/src/bytes_io.rs:203-251 | a missing file, a short or incompatible meta block are refused with `OpenFile`'s error, as are the panics of counting frames of `frame_len` bytes and of seeking `frame_len as i64` back from the end; otherwise the handle has `OpenFile`'s meta block, frame count and sequence number, and the reader is after the meta block |
| BytesIo.OpenAsWritten | rust/projects/lib/bytes_io/src/bytes_io.rs:154-157 | as written, the opened handle's writer sits at position 0, over the meta block |
| BytesIo.Open | rust/projects/lib/bytes_io/src/bytes_io.rs:203-251 | `open` with the writer at the end of the file: as `OpenWith`, and the writer position is the file's length |
| SegmentCodec.NewSegmentHeader | rust/projects/lib/segment_io/src/segment.rs:27-35 | the header keeps length, size, partial sequence number and total, and its entry sequence number is 0 |
| SegmentCodec.SegmentHeaderBytes | rust/projects/lib/segment_io/src/segment.rs:37-49 | the header encoding is exactly `SEGMENT_HEADER_SIZE` (80) bytes |
| SegmentCodec.SegmentHeaderRoundTrip | rust/projects/lib/segment_io/src/segment.rs:37-68 | decoding an encoded segment header gives it back |
| SegmentCodec.SegmentHeaderBytesRoundTrip | rust/projects/lib/segment_io/src/segment.rs:55-68 | any 80 bytes decode to a header whose encoding is those bytes |
| SegmentCodec.NewSegment | rust/projects/lib/segment_io/src/segment.rs:94-104 | the segment keeps its header, its payload is `size as usize` long and zero after `length as usize`, and `payload()` gives back the data |
| SegmentCodec.Payload | rust/projects/lib/segment_io/src/segment.rs:115-117 | when the payload holds `length as usize` bytes (the slice panics otherwise), the data is exactly those first bytes |
| SegmentCodec.IsLast | rust/projects/lib/segment_io/src/segment.rs:123-125 | panics exactly when `total` is 0, and otherwise holds exactly when `partial_seq + 1 == total` |
| SegmentCodec.SegmentBytes | rust/projects/lib/segment_io/src/segment.rs:106-112 | the encoding is the header's 80 bytes plus the whole payload |
| SegmentCodec.SegmentRoundTrip | rust/projects/lib/segment_io/src/segment.rs:106-138 | decoding an encoded segment gives it back |
| SegmentCodec.SegmentBytesRoundTrip | rust/projects/lib/segment_io/src/segment.rs:128-138 | any bytes of at least header size decode to a segment whose encoding is those bytes |
| SegmentCodec.CreatedSegments | rust/projects/lib/segment_io/src/segment.rs:157-162 | there are `len / limit` segments, rounded up |
| SegmentCodec.Create | rust/projects/lib/segment_io/src/segment.rs:157-197 | the split-off loop yields exactly the segments `CreatedSegments` describes |
| SegmentCodec.CreatedSegmentHeaders | rust/projects/lib/segment_io/src/segment.rs:173-193 | segment i has `partial_seq` i, `total` the count, `size` the limit, `entry_seq` 0 and a payload padded to the limit; it is first exactly when i is 0 and last exactly when it is the final one; every segment but the last is full and the last holds `len mod limit`, or a full limit when the division is exact |
| SegmentCodec.NoSegmentsForNothing | rust/projects/lib/segment_io/src/segment.rs:157-162 | an empty payload gives no segments |
| SegmentCodec.CreatedJoin | rust/projects/lib/segment_io/src/segment.rs:173-193 | joining the data of the created segments in order gives back the payload |
| SegFile.NewFileHeader | rust/projects/lib/segment_io/src/seg_file.rs:28-33 | a new file header announces `SEGMENT_HEADER_SIZE`-byte segment headers and keeps the payload size |
| SegFile.FileHeaderBytes | rust/projects/lib/segment_io/src/seg_file.rs:35-43 | the file header is exactly `FILE_HEADER_SIZE` (32) bytes |
| SegFile.FileHeaderRoundTrip | rust/projects/lib/segment_io/src/seg_file.rs:35-59 | decoding an encoded file header gives it back |
| SegFile.FileHeaderBytesRoundTrip | rust/projects/lib/segment_io/src/seg_file.rs:46-59 | any 32 bytes decode to a file header whose encoding is those bytes |
| SegFile.NextSegmentAt | rust/projects/lib/segment_io/src/seg_file.rs:176-197 | a segment read is the decoding of the next `segment_bytes` bytes, and the reader moves past them |
| SegFile.GetPayloadStart | rust/projects/lib/segment_io/src/seg_file.rs:232-261 | a first segment that is not the last hands its data to the loop |
| SegFile.GetPayloadStep | rust/projects/lib/segment_io/src/seg_file.rs:263-275 | a segment that is not the last appends its data and moves the loop on by one segment |
| SegFile.CreatedSegmentBytes | rust/projects/lib/segment_io/src/seg_file.rs:107 | the segment length is the payload size's low 64 bits plus the header size, and panics exactly when that sum leaves the 64-bit range |
| SegFile.SegmentCount | rust/projects/lib/segment_io/src/seg_file.rs:162-170 | a count is returned exactly when the bytes after the header are none or a whole number of segments, and it times the segment length is those bytes |
| SegFile.StartAt | rust/projects/lib/segment_io/src/seg_file.rs:221 | the k-th segment starts `segment_bytes * k` bytes after the file header |
| SegFile.ReadLaidSegment | rust/projects/lib/segment_io/src/seg_file.rs:176-197 | in a file of segments laid end to end, reading at the k-th start gives segment k and moves to the next start |
| SegFile.GetPayloadAlong | rust/projects/lib/segment_io/src/seg_file.rs:232-277 | along a readable run that starts with a first segment, `get_payload` gives all their data joined and ends after the run |
| SegFile.CreatedReadable | rust/projects/lib/segment_io/src/segment.rs:157-197 | `create`'s segments carry the payload size, the first is first, and exactly the final one is last |
| SegFile.ReadBackPayload | rust/projects/lib/segment_io/src/seg_file.rs:232-298 | after the file header and any earlier segments, the segments `append` writes for a non-empty payload read back as that payload, and the reader ends where the next payload starts |
| SegFile.OpenLaid | rust/projects/lib/segment_io/src/seg_file.rs:123-174 | opening a file of a header and whole segments gives back the header, the segment length and the number of segments |
| SegFile.SegmentCountLaid | rust/projects/lib/segment_io/src/seg_file.rs:162-170 | the count of a file of whole segments is their number |
| SegFile.SegmentFile.constructor | rust/projects/lib/segment_io/src/seg_file.rs:101-108 | a new handle keeps its header, segment length and count, and reads after the file header |
| SegFile.SegmentFile.NextSegment | rust/projects/lib/segment_io/src/seg_file.rs:176-197 | the segment read and the new reader position are `NextSegmentAt` of the file at the old position |
| SegFile.SegmentFile.LastSegmentSeq | rust/projects/lib/segment_io/src/seg_file.rs:201-207 | none exactly when no segment is counted, else one less than the count |
| SegFile.SegmentFile.WriteSegments | rust/projects/lib/segment_io/src/seg_file.rs:209-216 | the segments' bytes are added at the end of the file and the count grows by their number |
| SegFile.SegmentFile.SeekSegment | rust/projects/lib/segment_io/src/seg_file.rs:218-230 | the position `FILE_HEADER_SIZE + segment_bytes * n` is computed in `usize`, and each of its overflows panics and leaves the reader; otherwise the reader moves there and the position is returned |
| SegFile.SegmentFile.GetPayload | rust/projects/lib/segment_io/src/seg_file.rs:232-277 | reserving `payload_bytes as usize` bytes panics beyond `isize::MAX` and leaves the reader; otherwise the payload read and the new reader position are `GetPayloadAt` of the file at the old position |
| SegFile.SegmentFile.Append | rust/projects/lib/segment_io/src/seg_file.rs:279-298 | a zero payload size panics without change; otherwise `create`'s segments are added at the end and the range of their numbers is returned; appending to a laid-out file keeps it laid out |
| SegFile.LaidAppend | rust/projects/lib/segment_io/src/seg_file.rs:209-216 | segments of the announced size added at the end of a laid-out file make it the header followed by the old and the new segments |
| SegFile.Create | rust/projects/lib/segment_io/src/seg_file.rs:87-121 | an existing path is refused unchanged; otherwise the file is created, an overflowing segment length panics leaving it empty, and otherwise it holds exactly the new file header, the count is 0 and the reader is after the header; for a new path it succeeds exactly when the segment length fits |
| SegFile.Open | rust/projects/lib/segment_io/src/seg_file.rs:123-174 | a missing file is created empty and refused as missing its header; otherwise the handle has `OpenFile`'s header, segment length and count, and reads after the header |
| LsFile.NewLogFileHeader | rust/projects/lib/lsmt/src/lsf/entry.rs:28-35 | a new header has version 0 and keeps ids, compacted flag and entry count |
| LsFile.WalNameInjective | rust/projects/lib/lsmt/src/lsf/ls_file.rs:68-73 | different id ranges, or a plain and a compacted file, never get the same file name (`<end>.wal` for one id, `<start>-<end>.wal` for a range) |
| LsFile.NameTailInjective | rust/projects/lib/lsmt/src/lsf/ls_file.rs:162-170 | the part of a name after its leading number determines whether the file covers one id, its end id and whether it is compacted |
| LsFile.LastSlash | rust/projects/lib/lsmt/src/lsf/ls_file.rs:161 | the position returned holds the last `/` of the path, and none means the path has no `/` |
| LsFile.ParentOfJoin | rust/projects/lib/lsmt/src/lsf/ls_file.rs:161 | a name without separators joined to a directory has that directory as its parent |
| LsFile.CompactedBeside | rust/projects/lib/lsmt/src/lsf/ls_file.rs:157-171 | the parent of a file `create` made is its directory, and the compacted file's path there differs from the file's own |
| LsFile.NextRecordAt | rust/projects/lib/lsmt/src/lsf/ls_file.rs:88-96 | a record found is the first data entry at or after the cursor, everything skipped is a header or an index snapshot, and none found means no data entry is left |
| LsFile.NextRecordInOrder | rust/projects/lib/lsmt/src/lsf/ls_file.rs:88-107 | reading records one after another yields exactly the data entries in file order |
| LsFile.OpenEntries | rust/projects/lib/lsmt/src/lsf/ls_file.rs:39-65 | an empty file is `EmptyFile`, a first entry that is not a header is `HeaderMissing`, a last entry that is not an index snapshot is `IncompleteWrite`; otherwise the header comes from the first entry and the index and count from the last |
| LsFile.OpenLaidOut | rust/projects/lib/lsmt/src/lsf/ls_file.rs:39-65 | a laid-out file opens to its own header and index, with the count one less than its number of entries |
| LsFile.ReopenedCountIndexesSnapshot | rust/projects/lib/lsmt/src/lsf/ls_file.rs:55-59 | as written, after `open` the next `write_entry_data` indexes its key at the old index snapshot, not at the data entry, and the file is no longer laid out |
| LsFile.ReopenedCountCorrected | rust/projects/lib/lsmt/src/lsf/ls_file.rs:130-135 | with the count one past the last snapshot, the next `write_entry_data` keeps the file laid out |
| LsFile.CmpHeaders | rust/projects/lib/lsmt/src/lsf/ls_file.rs:231-239 | `Less` exactly when this file's ids end before the other's start, `Equal` exactly when not so and the headers are equal |
| LsFile.CmpDisjoint | rust/projects/lib/lsmt/src/lsf/ls_file.rs:231-239 | of two files with disjoint non-empty id ranges, the earlier is `Less` and the later `Greater` |
| LsFile.CmpSelf | rust/projects/lib/lsmt/src/lsf/ls_file.rs:218-239 | a file compares `Equal` to itself exactly when its id range is not empty |
| LsFile.CmpOverlapBothGreater | rust/projects/lib/lsmt/src/lsf/ls_file.rs:231-239 | two files with overlapping ids (0..=2 and 1..=3) are each `Greater` than the other, so the order is not antisymmetric |
| LsFile.Insert | rust/projects/lib/lsmt/src/lsf/ls_file.rs:187 | inserting into an ascending run keeps it ascending and adds exactly the new element |
| LsFile.SortByPosition | rust/projects/lib/lsmt/src/lsf/ls_file.rs:187 | the result is ascending by position and a permutation of the input, with distinct keys kept distinct |
| LsFile.Build | rust/projects/lib/lsmt/src/lsf/ls_file.rs:173-203 | the compacted entries are the header, the sorted entries in order and the snapshot of the new index, which maps the j-th key to position j + 1 |
| LsFile.CompactedOf | rust/projects/lib/lsmt/src/lsf/ls_file.rs:173-203 | the entries built from the entries read for each key, sorted by their old positions, are the compacted file: every key keeps its entry, keys get distinct positions, and the old order of positions is kept |
| LsFile.CompactedLaidOut | rust/projects/lib/lsmt/src/lsf/ls_file.rs:157-213 | compacting a laid-out file gives a laid-out file |
| LsFile.LogStructuredFile.constructor | rust/projects/lib/lsmt/src/lsf/ls_file.rs:25-37 | a new handle has an empty index, a zero count and a cursor at the start |
| LsFile.LogStructuredFile.ReadNext | rust/projects/lib/lsmt/src/lsf/ls_file.rs:84-86 | the entry at the cursor, which moves past it; none at the end |
| LsFile.LogStructuredFile.ReadNextRecord | rust/projects/lib/lsmt/src/lsf/ls_file.rs:88-96 | the record read and the new cursor are `NextRecordAt` of the old cursor |
| LsFile.LogStructuredFile.Pop | rust/projects/lib/lsmt/src/lsf/ls_file.rs:98-107 | the bytes of the next data record, if any, and the cursor after it |
| LsFile.LogStructuredFile.PopPointer | rust/projects/lib/lsmt/src/lsf/ls_file.rs:109-121 | a pointer naming this file's first id and the next data record's key, if any, and the cursor after it |
| LsFile.LogStructuredFile.WriteEnd | rust/projects/lib/lsmt/src/lsf/ls_file.rs:123-128 | the entry is added at the end and counted |
| LsFile.LogStructuredFile.WriteEntryData | rust/projects/lib/lsmt/src/lsf/ls_file.rs:130-135 | the key is indexed at the count before the write, the entry and a snapshot of the new index follow, the count grows by two, and a valid handle writing a data entry for that key stays valid |
| LsFile.LogStructuredFile.Append | rust/projects/lib/lsmt/src/lsf/ls_file.rs:137-140 | the record is written as a data entry, the returned position names this file and the key, and on a valid handle the key is indexed at the entry's position |
| LsFile.LogStructuredFile.ReadEntryByPointer | rust/projects/lib/lsmt/src/lsf/ls_file.rs:142-149 | a key missing from the index panics; otherwise the next data entry from the key's indexed position |
| LsFile.LogStructuredFile.ReadByPointer | rust/projects/lib/lsmt/src/lsf/ls_file.rs:151-155 | a key missing from the index panics; otherwise the next record's bytes from its indexed position, which on a valid handle are exactly the bytes stored under that key |
| LsFile.LogStructuredFile.Compact | rust/projects/lib/lsmt/src/lsf/ls_file.rs:157-213 | an already compacted file is left alone; a path without parent panics; an existing compacted name is refused; a position past the end panics after creating the file; otherwise the handle moves to the new path and holds the compacted file, the old path is removed, and a valid handle stays valid |
| LsFile.LogStructuredFile.Rewrite | rust/projects/lib/lsmt/src/lsf/ls_file.rs:181-203 | fails exactly when an indexed position lies past the end, and otherwise gives the compacted file of the entries and index |
| LsFile.LogStructuredFile.Collect | rust/projects/lib/lsmt/src/lsf/ls_file.rs:181-186 | fails exactly when an indexed position lies past the end, and otherwise picks, for each key exactly once, the entry at its indexed position |
| LsFile.Cmp | rust/projects/lib/lsmt/src/lsf/ls_file.rs:224-239 | two files compare as their headers do |
| LsFile.Create | rust/projects/lib/lsmt/src/lsf/ls_file.rs:67-78 | an existing name is refused; otherwise the file is named after the ids and holds the header and an empty index snapshot, and the handle is valid |
| LsFile.OpenWith | rust/projects/lib/lsmt/src/lsf/ls_file.rs:39-65 | `OpenEntries`' errors are returned; otherwise the handle takes its header, index and the snapshot's count (or one more) and reads from the start |
| LsFile.OpenAsWritten | rust/projects/lib/lsmt/src/lsf/ls_file.rs:55-59 | as written, the count is the snapshot's own position, one less than the entries of a laid-out file |
| LsFile.Open | rust/projects/lib/lsmt/src/lsf/ls_file.rs:39-65 | as `OpenWith` counting the snapshot itself, so a laid-out file opens to a valid handle |
| LsFile.CompactedContents | rust/projects/lib/lsmt/src/lsf/ls_file.rs:181-193 | after compaction every key's new position holds the entry its old position held |
| LsFile.CompactedOrder | rust/projects/lib/lsmt/src/lsf/ls_file.rs:187-193 | compaction gives distinct keys distinct positions and keeps their old order |
| PingPongError.FromStr | rust/projects/cmd/ping-pong/src/error.rs:27-42 | text without a space is the `Internal` "missing seperate" error |
| PingPongError.SplitAtFirstSpace | rust/projects/cmd/ping-pong/src/error.rs:27-42 | text of a space-free word, a space and a message is read as that message under the variant the word names, and panics exactly when the word names no variant |
| PingPongError.ErrorRoundTrip | rust/projects/cmd/ping-pong/src/error.rs:17-42 | reading back the `Display` text of any error gives the error |
| PingPongError.DisplayInjective | rust/projects/cmd/ping-pong/src/error.rs:17-25 | different errors display differently |
| Decimal.NatToDecimalValue | rust/projects/cmd/ping-pong/src/lib.rs:24 | the decimal text `Display` writes for a number denotes that number |
| Decimal.NatToDecimalInjective | rust/projects/lib/lsmt/src/lsf/ls_file.rs:68-73 | different numbers have different decimal texts |
| Decimal.AccumulateOk | rust/projects/cmd/ping-pong/src/lib.rs:76-78 | the digit loop of `parse::<i128>` succeeds exactly on digit strings within the bound and then gives their value |
| Decimal.ParseI128OfDecimal | rust/projects/cmd/ping-pong/src/lib.rs:24-78 | parsing the decimal text of any `i128` gives it back |
| Text.Find | rust/projects/cmd/ping-pong/src/lib.rs:81 | the position found is the first occurrence of the pattern, and none is found exactly when the text does not contain it |
| PingPong.Encode | rust/projects/cmd/ping-pong/src/lib.rs:19-35 | every encoding is at least three characters long and ends in CRLF |
| PingPong.AsUsize | rust/projects/cmd/ping-pong/src/lib.rs:91 | `num as usize` is below 2^64 and is the count itself whenever that lies in the `usize` range |
| PingPong.Parse | rust/projects/cmd/ping-pong/src/lib.rs:57-110 | the parser's result is `Decode` of the text |
| PingPong.ParseArray | rust/projects/cmd/ping-pong/src/lib.rs:79-106 | the array branch, walking element lines with a cursor, computes `DecodeArray` |
| PingPong.ItemIsDecode | rust/projects/cmd/ping-pong/src/lib.rs:86-90 | parsing an element line on its own is what the parser does with it as a whole text |
| PingPong.DecodeLinesStep | rust/projects/cmd/ping-pong/src/lib.rs:86-90 | one turn of the element loop puts the first line's value in front of the rest's |
| PingPong.ScalarRoundTrip | rust/projects/cmd/ping-pong/src/lib.rs:19-78 | every simple string without CRLF, every error and every integer is read back from its encoding |
| PingPong.LinesRoundTrip | rust/projects/cmd/ping-pong/src/lib.rs:25-90 | the element loop reads back the concatenated encodings of single-line values |
| PingPong.ArrayRoundTrip | rust/projects/cmd/ping-pong/src/lib.rs:25-99 | an array of single-line values is read back from its encoding, closing CRLF included |
| PingPong.FlatRoundTrip | rust/projects/cmd/ping-pong/src/lib.rs:19-110 | every flat value (no nested arrays, no CRLF inside a line) is read back from its encoding |
| PingPong.ReencodeSimpleString | rust/projects/cmd/ping-pong/src/lib.rs:65-74 | whatever text is read as a simple string is exactly that string's encoding |
| PingPong.ReencodeError | rust/projects/cmd/ping-pong/src/lib.rs:75 | error text whose word is followed by a space is exactly its error's encoding |
| PingPong.NonCanonicalInteger | rust/projects/cmd/ping-pong/src/lib.rs:76-78 | `:+5` is read as 5 but 5 is written back as `:5`, so reading does not invert writing on every text |
| PingPong.MissingCrlf | rust/projects/cmd/ping-pong/src/lib.rs:59-61 | text not ending in CRLF is the "not ends with CRLF" parse error |
| PingPong.SimpleStringWithCrlf | rust/projects/cmd/ping-pong/src/lib.rs:66-70 | a simple string with a CRLF inside is the "more than one CRLF" parse error |
| PingPong.IntegerParseFailure | rust/projects/cmd/ping-pong/src/lib.rs:76-78 | an integer that does not parse is a parse error carrying the integer error's text |
| PingPong.ArrayHeaderWithoutCount | rust/projects/cmd/ping-pong/src/lib.rs:103-105 | an array text with no CRLF after the count is the "missing numeric" parse error |
| PingPong.ArrayCountMismatch | rust/projects/cmd/ping-pong/src/lib.rs:91-96 | an array whose lines do not number the declared count is a `MissElement` error naming both numbers |
| PingPong.EmptyBodyPanics | rust/projects/cmd/ping-pong/src/lib.rs:64 | a bare CRLF panics on the missing type byte |
| PingPong.UnknownTypePanics | rust/projects/cmd/ping-pong/src/lib.rs:107 | an unknown type byte panics |
| PingPong.NestedArrayPanics | rust/projects/cmd/ping-pong/src/lib.rs:86-88 | the encoding of an array holding an empty array panics when read back, because the inner closing CRLF becomes an empty element |
| Decimal.NatToDecimal | rust/projects/cmd/ping-pong/src/lib.rs:26 | the decimal text of a number is non-empty and all digits |
| PingPong.NestedArrayEncoding | rust/projects/cmd/ping-pong/src/lib.rs:25-31 | an array holding an empty array writes the inner array's lines, then its closing CRLF, then the outer closing CRLF |
| PingPong.NestedLinesPanics | rust/projects/cmd/ping-pong/src/lib.rs:86-90 | when the elements of that text are read back, the inner closing CRLF is an empty element, which panics |
| BigCacheAlloc.PowerTest | review/allegro/bigcache/alloc/main.go:103-105 | the test `a & (a - 1) == 0` holds exactly for the powers of two |
| BigCacheAlloc.FloorPow2 | review/allegro/bigcache/alloc/main.go:106-110 | the value the doubling loop stops at is a power of two `r` with `r <= a < 2r` |
| BigCacheAlloc.FloorPow2Unique | review/allegro/bigcache/alloc/main.go:106-110 | there is only one power of two `r` with `r <= a < 2r` |
| BigCacheAlloc.NearestPowerOf2 | review/allegro/bigcache/alloc/main.go:99-111 | zero panics; otherwise the result is the largest power of two not above the input, and equals the input exactly when the input is a power of two |
| BigCacheAlloc.AsWrittenBelow | review/allegro/bigcache/alloc/main.go:99-111 | up to 2^63 the function with its wrapping shift ends within 63 rounds and returns the largest power of two not above the input |
| BigCacheAlloc.LoopEnds | review/allegro/bigcache/alloc/main.go:106-110 | up to 2^63 the doubling loop ends, at the largest power of two not above the input, given enough rounds |
| BigCacheAlloc.LoopNeverEnds | review/allegro/bigcache/alloc/main.go:106-110 | above 2^63 the wrapping shift reaches zero and the loop never ends, whatever number of rounds it is given |
| BigCacheAlloc.AsWrittenAbove | review/allegro/bigcache/alloc/main.go:99-111 | above 2^63 every input that is not a power of two makes the function loop forever |
| BigCacheAlloc.OverflowLoopsForever | review/allegro/bigcache/alloc/main.go:106-110 | 2^63 + 1 makes the function loop forever |
| BigCacheAlloc.ConfigFrom | review/allegro/bigcache/alloc/main.go:71-97 | the shard count is a power of two between 1 and 128 and no more than `itemTotal / 100 + 1`, and it is 128 or more than half that bound; the window holds all items when pre-allocating and a tenth otherwise; the hard limit in megabytes is the smallest whole number strictly above the items' total size |
| BigCacheAlloc.ShardsDetermined | review/allegro/bigcache/alloc/main.go:78-82 | the shard clauses of `ConfigFrom` single out its shard count: the largest power of two up to `itemTotal / 100 + 1`, capped at 128 |
| MapReduce.ParseTaskType | dss/projects/map_reduce/src/lib.rs:28-39 | a name it accepts is the printed name of the type it returns |
| MapReduce.DisplayRoundTrip | dss/projects/map_reduce/src/lib.rs:28-39 | the two task types print differently: the printed name gives the type back |
| MapReduce.Hosts | dss/projects/map_reduce/src/lib.rs:75 | the hosts of the (host, path) pairs, one per pair, in order |
| MapReduce.FilesMapSpec | dss/projects/map_reduce/src/lib.rs:74-78 | the file map exists exactly when no host comes twice; its keys are the hosts and each host maps to its own path |
| MapReduce.NewTask | dss/projects/map_reduce/src/lib.rs:70-87 | a repeated host panics, and only then; otherwise the new task is not allocated, has the given type and maps each host to its path |
| MapReduce.NoneStays | dss/projects/map_reduce/src/lib.rs:75-78 | once a prefix of the pairs repeats a host, the whole list does |
| MapReduce.Task.Clone | dss/projects/map_reduce/src/lib.rs:60-68 | the copy is a new task with the flag's current value, the same type and the same files |
| MapReduce.FileLocation | dss/projects/map_reduce/src/lib.rs:95-101 | a map job and a reduce job both give their own host and path |
| MapReduceMaster.UsesMapTable | dss/projects/map_reduce/src/master.rs:18-28 | a map request uses the map table, a reduce request the reduce table, and any-request the map table exactly when it lists more hosts |
| MapReduceMaster.PopLast | dss/projects/map_reduce/src/master.rs:31 | popping removes the last path of one host's list and leaves the other hosts alone |
| MapReduceMaster.Master.AllocTask | dss/projects/map_reduce/src/master.rs:17-43 | the asking host's own last path is preferred; otherwise some host's last path is handed out; there is no task exactly when the chosen table is empty, and the other table never changes |
| MapReduceMaster.PopLowersWaiting | dss/projects/map_reduce/src/master.rs:30-40 | handing out a task lowers the number of waiting paths by exactly one |
| MapReduceMaster.WaitingSame | dss/projects/map_reduce/src/master.rs:30-40 | the hosts other than the popped one keep their waiting paths |
| RaftGrpc.TruncU16 | dss/projects/raft/examples/ping_pong/rpc/grpc/mod.rs:18 | `as u16` keeps a value in range and otherwise agrees with it modulo 2^16 |
| RaftGrpc.AsI64 | dss/projects/raft/examples/ping_pong/rpc/grpc/mod.rs:46-47 | `as i64` keeps values up to 2^63 - 1 and wraps larger ones to negatives |
| RaftGrpc.EndPointFromWire | dss/projects/raft/examples/ping_pong/rpc/grpc/mod.rs:15-20 | the address is kept; a port in range is kept |
| RaftGrpc.EndPointToWire | dss/projects/raft/examples/ping_pong/rpc/grpc/mod.rs:22-29 | the address and the port are sent as they are |
| RaftGrpc.EndPointRoundTrip | dss/projects/raft/examples/ping_pong/rpc/grpc/mod.rs:15-29 | an end point survives the trip to the wire and back |
| RaftGrpc.WireEndPointRoundTrip | dss/projects/raft/examples/ping_pong/rpc/grpc/mod.rs:15-29 | a wire end point survives the trip back exactly when its port is a valid port number |
| RaftGrpc.LogSeqFromWire | dss/projects/raft/examples/ping_pong/rpc/grpc/mod.rs:31-41 | it panics exactly when the product of term and index is not a positive 64-bit value; a positive pair gives that position, a negative pair gives none |
| RaftGrpc.LogSeqToWire | dss/projects/raft/examples/ping_pong/rpc/grpc/mod.rs:43-59 | no position is sent as (-1, -1), a position as its term and index cast to `i64` |
| RaftGrpc.NoneRoundTrip | dss/projects/raft/examples/ping_pong/rpc/grpc/mod.rs:31-59 | "no position" survives the trip to the wire and back |
| RaftGrpc.SomeRoundTrip | dss/projects/raft/examples/ping_pong/rpc/grpc/mod.rs:31-59 | a position with positive term and index whose product fits in 64 bits survives the trip |
| RaftGrpc.ZeroPanics | dss/projects/raft/examples/ping_pong/rpc/grpc/mod.rs:31-59 | a position with term or index zero is sent without complaint but panics on the way back |
| MapReduce.Display | dss/projects/map_reduce/src/lib.rs:28-39 | a map task prints as `MAP` and a reduce task as `REDUCE` |
| KvsMemory.Lookup | rust/pingcap/talent-plan/kvs/src/lib.rs:58-63 | a key has a value exactly when it is in the map, and the value is the one the map holds |
| KvsMemory.KvStore.constructor | rust/pingcap/talent-plan/kvs/src/lib.rs:14-18 | a new store is empty |
| KvsMemory.KvStore.Set | rust/pingcap/talent-plan/kvs/src/lib.rs:36-38 | the key is inserted or overwritten and every other key keeps its value |
| KvsMemory.KvStore.Get | rust/pingcap/talent-plan/kvs/src/lib.rs:58-63 | a present key gives its value and an absent key gives nothing |
| KvsMemory.KvStore.Remove | rust/pingcap/talent-plan/kvs/src/lib.rs:77-79 | the key is forgotten and nothing else changes |
| KvsMemory.SetThenGet | rust/pingcap/talent-plan/kvs/src/lib.rs:36-63 | a read after a write sees the written value; a write leaves other keys as they were |
| KvsMemory.RemoveThenGet | rust/pingcap/talent-plan/kvs/src/lib.rs:58-79 | after a remove the key reads as absent, other keys read as before, and removing an absent key changes nothing |
| KvsMemory.SetOverwrites | rust/pingcap/talent-plan/kvs/src/lib.rs:36-38 | a second set of a key replaces the first |
| KvsReplay.Play | rust/projects/cmd/pingcap/talent-plan/kvs/src/lib.rs:131-148 | a set inserts or overwrites; a remove deletes a present key; it fails with `KeyNotFound` exactly for a remove of an absent key; only a success counts one more command |
| KvsReplay.ReplaySnoc | rust/projects/cmd/pingcap/talent-plan/kvs/src/lib.rs:58-61 | replaying one more record plays it on the replay of the others, and a failed replay stays failed |
| KvsReplay.ReplayCounts | rust/projects/cmd/pingcap/talent-plan/kvs/src/lib.rs:53-61 | after a successful replay the sequence number counts the records replayed |
| KvsReplay.ReplaySetsSucceed | rust/projects/cmd/pingcap/talent-plan/kvs/src/lib.rs:58-61 | a log of sets alone always replays, and a key no set names keeps its value |
| KvsReplay.ReplayPrefixErr | rust/projects/cmd/pingcap/talent-plan/kvs/src/lib.rs:58-61 | a log whose prefix fails to replay fails with the same error |
| KvsReplay.KvStore.PlayCommand | rust/projects/cmd/pingcap/talent-plan/kvs/src/lib.rs:131-148 | the fields change exactly as `Play` says, and a failure leaves them as they were |
| KvsReplay.KvStore.Set | rust/projects/cmd/pingcap/talent-plan/kvs/src/lib.rs:81-86 | the key maps to the value, one more command is counted, the command is logged, and the state still equals the replay of the log |
| KvsReplay.KvStore.Remove | rust/projects/cmd/pingcap/talent-plan/kvs/src/lib.rs:124-129 | it fails exactly for an absent key and then logs nothing; otherwise the key is gone and the tombstone is logged; the state still equals the replay of the log |
| KvsReplay.KvStore.Get | rust/projects/cmd/pingcap/talent-plan/kvs/src/lib.rs:105-110 | a present key gives its value; an absent key is `KeyNotFound`, never "no value" |
| KvsReplay.Open | rust/projects/cmd/pingcap/talent-plan/kvs/src/lib.rs:33-64 | it fails exactly when replaying the log fails, with that error; otherwise the store holds the replay of the whole log |
| KvsIndex.Latest | distributed/pingcap/talent-plan/kvs/src/lib.rs:55-57 | the position found holds a command for the key and no later command names it; with no position, no command names it |
| KvsIndex.LatestSnoc | distributed/pingcap/talent-plan/kvs/src/lib.rs:74-77 | an appended command becomes the latest for its key and changes no other key's latest |
| KvsIndex.ValueSnoc | distributed/pingcap/talent-plan/kvs/src/lib.rs:67-127 | an appended set makes the log hold its value for that key, a remove makes it hold nothing, and other keys keep what they held |
| KvsIndex.KvStore.Append | distributed/pingcap/talent-plan/kvs/src/lib.rs:74 | the command goes at the end of the log and the returned position names its place and key |
| KvsIndex.KvStore.Set | distributed/pingcap/talent-plan/kvs/src/lib.rs:67-80 | the set is logged, the key points at it, the index stays faithful to the log, and the key now holds the value while other keys hold what they held |
| KvsIndex.KvStore.Get | distributed/pingcap/talent-plan/kvs/src/lib.rs:86-106 | a key not indexed gives no value; a pointer past the log gives `DataNotFound`; with a faithful index the result is what the log holds for the key |
| KvsIndex.KvStore.Remove | distributed/pingcap/talent-plan/kvs/src/lib.rs:112-127 | it fails with `KeyNotFound` exactly for a key not indexed, and then logs nothing; otherwise the key leaves the index and a tombstone is logged; afterwards the key holds nothing |
| KvsIndex.Open | distributed/pingcap/talent-plan/kvs/src/lib.rs:31-60 | the rebuilt index is faithful to the log and indexes exactly the keys the log names |
| KvsIndex.TombstoneReadsNothing | distributed/pingcap/talent-plan/kvs/src/lib.rs:92-97 | a key whose last command is a remove reads as nothing, though a reopen indexes it again |
| KvsIndex.LastSetWins | distributed/pingcap/talent-plan/kvs/src/lib.rs:67-106 | a key holds the value of its last set when nothing later names it |
| KvsIndex.SharedKvStore.Set | distributed/pingcap/talent-plan/kvs/src/engines/kvs.rs:135-137 | the shared store's set does exactly what the inner store's set does |
| KvsIndex.SharedKvStore.Get | distributed/pingcap/talent-plan/kvs/src/engines/kvs.rs:139-141 | the shared store's get gives what the log holds for the key |
| KvsIndex.SharedKvStore.Remove | distributed/pingcap/talent-plan/kvs/src/engines/kvs.rs:143-145 | the shared store's remove does exactly what the inner store's remove does |
| Rgrep.NewConfig | rust/rgrep/src/lib.rs:13-19 | the configuration keeps the query, the path and the case flag it is given |
| Rgrep.IndexOf | rust/rgrep/src/lib.rs:37 | the position found is the first occurrence of the character; with none found, the character does not occur |
| Rgrep.Lines | rust/rgrep/src/lib.rs:37 | no line holds a line feed, and there are never more lines than characters |
| Rgrep.Lower | rust/rgrep/src/lib.rs:31-42 | lowering keeps the length and lowers each character on its own |
| Rgrep.Search | rust/rgrep/src/lib.rs:30-48 | the results are exactly the matching lines of the text, in order, as they are in the text |
| Rgrep.SelectedSound | rust/rgrep/src/lib.rs:36-46 | every result is a line of the text that matches, and there are never more results than lines |
| Rgrep.SelectedComplete | rust/rgrep/src/lib.rs:36-46 | every matching line is among the results |
| Rgrep.EmptyQuerySelectsAll | rust/rgrep/src/lib.rs:43 | with an empty query every line is a result |
| Rgrep.SelectedConcat | rust/rgrep/src/lib.rs:37-46 | the results keep the text's order: selecting from two runs of lines is selecting from each in turn |
| Rgrep.LowerOfLower | rust/rgrep/src/lib.rs:38-42 | lowering leaves a text without upper-case letters as it is |
| Rgrep.CaseSensitiveImpliesInsensitive | rust/rgrep/src/lib.rs:31-43 | a line that contains the query exactly is also found when case is ignored |
| SmoothWrr.Overs | review/algorithm/smooth_weight_round_robin/main.py:36-37 | after every node's `over` each current weight has grown by that node's own weight |
| SmoothWrr.FirstMax | review/algorithm/smooth_weight_round_robin/main.py:36-41 | the scan finds a largest current weight, and the first position holding it |
| SmoothWrr.FirstMaxUnique | review/algorithm/smooth_weight_round_robin/main.py:36-41 | the first position holding the largest value is the only one the scan can find |
| SmoothWrr.Node.constructor | review/algorithm/smooth_weight_round_robin/main.py:4-7 | a node keeps the total and its own weight and starts at zero |
| SmoothWrr.Node.Over | review/algorithm/smooth_weight_round_robin/main.py:9-10 | the current weight grows by the node's own weight |
| SmoothWrr.Node.Choose | review/algorithm/smooth_weight_round_robin/main.py:12-13 | the current weight drops by the total weight |
| SmoothWrr.SmoothWeightRoundRobin.constructor | review/algorithm/smooth_weight_round_robin/main.py:20-24 | one distinct new node per weight, in order, each knowing the sum of the weights and starting at zero |
| SmoothWrr.SmoothWeightRoundRobin.OverAll | review/algorithm/smooth_weight_round_robin/main.py:34-41 | every node gains its own weight and the index is the first node with the largest current weight |
| SmoothWrr.SmoothWeightRoundRobin.Step | review/algorithm/smooth_weight_round_robin/main.py:33-45 | with no nodes the index -1 is out of range; otherwise the chosen node is the first largest after the gains, and the new weights are the gains with the total paid back by that node alone |
| SmoothWrr.ChooseAt | review/algorithm/smooth_weight_round_robin/main.py:36-43 | weights that differ from the gains only by the total paid by the first largest node are the result of the round |
| SmoothWrr.SumOvers | review/algorithm/smooth_weight_round_robin/main.py:36-37 | the gains of a round add the total weight to the sum of the current weights |
| SmoothWrr.SumUpdate | review/algorithm/smooth_weight_round_robin/main.py:43 | the chosen node's payment lowers the sum by the total weight |
| SmoothWrr.SumStaysZero | review/algorithm/smooth_weight_round_robin/main.py:22-43 | the current weights always sum to zero |
| SmoothWrr.NextChangesOnlyChosen | review/algorithm/smooth_weight_round_robin/main.py:36-43 | a round changes the chosen node by its own weight minus the total and every other node by its own weight |
| LeetcodeTree.TreeNode.constructor | algorithm/leetcode/rust/src/lib.rs:15-21 | a new node holds its value and has no children |
| LeetcodeTree.Slots | algorithm/leetcode/rust/src/lib.rs:34-51 | the k-th taken item looks at places 2k+1 and 2k+2, only those inside the array |
| LeetcodeTree.Children | algorithm/leetcode/rust/src/lib.rs:33-52 | every place an item adds to the queue is inside the array |
| LeetcodeTree.Tags | algorithm/leetcode/rust/src/lib.rs:29-54 | the queue's first item comes from place 0, and the loop takes at least one and at most as many items as the array has places, each from a place inside it |
| LeetcodeTree.TagsIncreasing | algorithm/leetcode/rust/src/lib.rs:29-54 | the items are taken from strictly increasing places, so no place is taken twice |
| LeetcodeTree.TagsFull | algorithm/leetcode/rust/src/lib.rs:29-54 | with a value at every place, the k-th taken item comes from place k |
| LeetcodeTree.MakeNode | algorithm/leetcode/rust/src/lib.rs:35-49 | a place with a value gives a new leaf holding it; an empty place gives no node |
| LeetcodeTree.Visit | algorithm/leetcode/rust/src/lib.rs:33-52 | a node gets a new child for each of places 2k+1 and 2k+2 inside the array that holds a value, and every such place goes in the queue, empty or not; an empty queue item adds nothing |
| LeetcodeTree.Round | algorithm/leetcode/rust/src/lib.rs:32-53 | one round links the k-th item to its children and keeps every item made from its place, at one index, with the first k+1 items linked |
| LeetcodeTree.Grow | algorithm/leetcode/rust/src/lib.rs:29-54 | after the loop item j is made from place `Tags(v)[j]`, each new node appears once, and the k-th item's children are the items made from places 2k+1 and 2k+2 |
| LeetcodeTree.BinaryTreeFrom | algorithm/leetcode/rust/src/lib.rs:24-58 | an empty array gives no tree and an empty first place panics; otherwise the root holds place 0's value and every node's children are the nodes made from places 2k+1 and 2k+2 of its queue index k |
| LeetcodeTree.ChildAtRange | algorithm/leetcode/rust/src/lib.rs:29-54 | when the items come from places 0, 1, 2, ... the one from place t is item t |
| LeetcodeTree.CompleteTree | algorithm/leetcode/rust/src/lib.rs:24-58 | with a value at every place the result is the complete tree of the array: node k's children are nodes 2k+1 and 2k+2 |

## Left out

- File handles are in-memory byte sequences: `BufReader`/`BufWriter`, `Clone` reopening a file, `Arc<AtomicUsize>` and `Mutex` are not modelled.
- Input/output errors of the operating system are not modelled: every read, write, seek, flush, directory creation and file removal on the in-memory files succeeds.
- `lsmt`'s segment file API is not part of this model. `LsFile` takes its file as a sequence of log entries with a read cursor, one segment per entry, where a seek to the end followed by a read gives the last entry. Entry serialisation (serde) is abstracted: an entry's bytes are the entry itself.
- `LsFile` does not model path normalisation. Its directory is the set of existing file names.
- The write-ahead logs of the key-value stores are sequences of commands, and a pointer is a position in them. The `lsmt` tree underneath is not part of this model, and neither is the creation of the store's directory.
- `KvsIndex.Open`: the pointers of the rebuilt index come from the log in order. The order in which `lsmt`'s `pop` returns them is not part of this model.
- Command and error formatting that only converts library errors (the `error.rs` files other than `ping-pong`'s, the `Incompatible` error's arity) is not modelled. Failed operations return the error variant alone.
- `PingPong`: text is a sequence of characters, so `String::from_utf8(..).unwrap()` never fails and UTF-8 decoding is not modelled.
- `PingPong`: an array nested in an array is not parsed. The parser as written panics on it (see `PingPong.NestedArrayPanics`), and the round trips are stated for flat values.
- `Rgrep`: `to_lowercase` is modelled for ASCII letters only. `main`/`run` (reading the file, printing) are left out.
- `Rgrep.Lines`: `str::lines` is defined directly; its contract states that no line holds a line feed and that there are no more lines than characters, not a full characterisation.
- `SmoothWrr`: the endless `run` loop and its printing are left out; one iteration is modelled (`SmoothWrr.SmoothWeightRoundRobin.Step`). Python integers are unbounded, like Dafny's.
- `QueuingSimulator.Simulator.Run`: it returns the per-second request counts instead of printing them.
- `QueuingSimulator.Simulator.Run`: `Run`, `RunSecond` and `Tick` use the corrected next-event rule (`QueuingSimulator.Simulator.NextTransformation`, panic only when every unit is idle). Where the program panics because only its last unit is idle (`simulator.go:78-90`, e.g. `NewSimulator([1s, 2s], 1)`, see Findings) they go on and return.
- `QueuingSimulator.Simulator.Run`: requires every unit's cost to be positive and its timer below the cost. With a zero cost the program takes zero-length steps forever (`QueuingSimulator.ZeroCostStalls`).
- `QueuingSimulator.NewSimulator`: requires at least one cost. With none the program panics on the first dispatch when there are users, and otherwise builds a simulator without units that the model does not represent.
- `QueuingSimulator`: `math.Min` through `float64` is an integer minimum. It is exact, because whichever operand it picks is at most a second in nanoseconds, below 2^53. `sort.SliceStable` is a stable insertion sort of the costs.
- `QueuingModel`: `float64` values are exact reals, so rounding in the floating-point operations is not modelled. The `String()` methods are left out.
- `BigCacheAlloc.ConfigFrom`: requires the item count to be below 2^63. The program's `int` arithmetic (a negative count, an overflowing `itemTotal * itemMaxSize`) is not modelled. Of `bigcache.DefaultConfig` only the fields this program sets are modelled.
- `BigCacheAlloc.NearestPowerOf2`: the test `a & (a - 1)` is a bitwise `and` on naturals (`BitAnd`), not a 64-bit vector operation.
- `MapReduceMaster.Master.AllocTask`: a `HashMap`'s iteration order is a parameter listing the table's hosts. `master.rs` calls a three-argument `Task::new` that `lib.rs` does not have, so a task handed out is a triple of type, host and path.
- `MapReduce`: the `AtomicBool` flag is a plain field, since no concurrency is modelled. The `debug!`/`trace!` logging is left out.
- `RaftGrpc.LogSeqFromWire`: the product of term and index panics on overflow, as in a debug build. A release build wraps it instead, which is not modelled. `PeerGrpcServer` and the generated protocol code are left out.
- `LeetcodeTree`: `Rc<RefCell<TreeNode>>` is a class reference, `i32` values are integers, and the `log::trace!` is left out. The queue's items are ghost bookkeeping in the proof.
- Allocation failure is not modelled: a buffer the allocator cannot provide (a frame or segment padded to a huge `size`, `create`'s vector of frames) aborts the program, while the model builds it.
- `BytesIo`: `first_entry`, `last_entry`, `find_entry` and `read_batch_frames` are `unimplemented!()` in the program and are left out.
- Language demos, network and RPC shells, threads, the command-line front ends and the libraries the program wraps (sled, serde, bigcache itself) are not part of this model.

## Findings

| source | as written | input that shows it | evidently intended | confidence | as-written member | corrected member |
|---|---|---|---|---|---|---|
| algorithm/queuing/pkg/simulator.go:78-90 | the "no next transformation" panic tests only the last unit's result | `NewSimulator([1s, 2s], 1)`: the first unit is busy and the last idle (`QueuingSimulator.LastUnitIdlePanics`) | panic only when every unit is idle | not executed | QueuingSimulator.Simulator.NextTransformationAsWritten | QueuingSimulator.Simulator.NextTransformation |
| rust/projects/lib/bytes_io/src/bytes_io.rs:258-274 | `read_entry` expects the continuation frames to be numbered from 0, while `create` numbers them from 1 | any entry longer than one frame's payload: reading it back panics | continuation frames read back in the numbering `create` gives them | not executed | BytesIoFormat.ReadBackEntryAsWritten | BytesIo.BytesIO.ReadEntry |
| rust/projects/lib/bytes_io/src/bytes_io.rs:154-157 | `open` with writing enabled starts the writer at position 0 | opening a file for writing and appending an entry whose first frame holds more than one byte: the next `open` fails with `Incompatible` (`BytesIoFormat.ClobberedMeta`) | the writer starts at the end of the file | not executed | BytesIo.OpenAsWritten | BytesIo.Open |
| review/allegro/bigcache/alloc/main.go:106-110 | `r << 1` wraps to 0 above 2^63 and the loop never ends | 2^63 + 1 (`BigCacheAlloc.OverflowLoopsForever`) | the largest power of two not above the input | not executed | BigCacheAlloc.AsWrittenAbove | BigCacheAlloc.NearestPowerOf2 |
| rust/projects/lib/lsmt/src/lsf/ls_file.rs:55-59 | `open` sets the entry count to the position of the index snapshot itself | reopening a file and appending one entry: the new key is indexed at the snapshot (`LsFile.ReopenedCountIndexesSnapshot`) | the count after the snapshot, so a new entry's pointer points at the entry | not executed | LsFile.OpenAsWritten | LsFile.ReopenedCountCorrected |
