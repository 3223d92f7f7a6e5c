/** `BytesIO`: a framed file opened for reading (and, when enabled, writing). The reader and the
  * writer are two positions in the same file; the file lives in a `FileSystem`, a map from paths
  * to contents that every handle on it shares. */
module BytesIo {
  import opened Wrappers
  import opened LittleEndian
  import opened Chunking
  import opened BytesIoCommon
  import opened BytesIoFrame
  import opened BytesIoFormat
  import opened FileImage

  class BytesIO {
    const node: Inode
    const path: string
    const writeEnable: bool
    var meta: Meta
    var entryCurrentSeq: U128
    /** The number of frames the file holds, as this handle counts them. */
    var frameOffset: nat
    var readPos: nat
    var writePos: nat
    /** The frames appended through this handle since the file was created. */
    ghost var written: seq<Frame>

    /** The file's current contents. */
    function File(): seq<Byte>
      reads node
    {
      node.data
    }

    /** The file is the meta block followed by exactly the frames `written`, each as long as the
      * meta block announces, and the writer sits at its end. */
    ghost predicate Laid()
      reads this, node
    {
      LaidOut(File(), meta, written, writePos, frameOffset)
    }

    /** `BytesIO::new`: both positions at the start of the file, no frames counted. */
    constructor (node: Inode, path: string, writeEnable: bool, meta: Meta)
      ensures this.node == node && this.path == path && this.writeEnable == writeEnable && this.meta == meta
      ensures entryCurrentSeq == 0 && frameOffset == 0 && readPos == 0 && writePos == 0 && written == []
    {
      this.node := node;
      this.path := path;
      this.writeEnable := writeEnable;
      this.meta := meta;
      entryCurrentSeq := 0;
      frameOffset := 0;
      readPos := 0;
      writePos := 0;
      written := [];
    }

    /** One `write_all` at the writer's position. */
    method Write(data: seq<Byte>)
      modifies node, this`writePos
      ensures File() == Overwrite(old(File()), old(writePos), data)
      ensures writePos == old(writePos) + |data|
    {
      node.data := Overwrite(node.data, writePos, data);
      writePos := writePos + |data|;
    }

    /** `read_frame`. */
    method ReadFrame() returns (r: Result<Option<Frame>, Error>)
      modifies this`readPos
      ensures (r, readPos) == ReadFrameAt(meta, File(), old(readPos))
    {
      if FrameLen(meta) >= U64_LIMIT {
        return Err(Panic("attempt to add with overflow"));
      }
      var (buf, next) := ReadInto(File(), readPos, FrameLen(meta));
      readPos := next;
      if buf.None? {
        return Ok(None);
      }
      if |buf.value| < HEADER_SIZE {
        return Err(Panic("frame shorter than its header"));
      }
      return Ok(Some(FrameFromBytes(buf.value)));
    }

    /** `read_header`. */
    method ReadHeader() returns (r: Result<Option<Header>, Error>)
      modifies this`readPos
      ensures (r, readPos) == ReadHeaderAt(meta, File(), old(readPos))
    {
      var (buf, next) := ReadInto(File(), readPos, AsUsize(meta.headerBytes));
      readPos := next;
      if buf.None? {
        return Ok(None);
      }
      if |buf.value| != HEADER_SIZE {
        return Err(Panic("header of unexpected size"));
      }
      return Ok(Some(HeaderFromBytes(buf.value)));
    }

    /** `read_entry`, with continuation frames checked against the numbering `create` gives
      * them (frame `count + 1` after `count` of them). */
    method ReadEntry() returns (r: Result<Option<seq<Byte>>, Error>)
      modifies this`readPos
      ensures (r, readPos) == ReadEntryAt(meta, File(), old(readPos), 1)
    {
      var first := ReadFrame();
      r := FinishEntry(first);
    }

    /** The checks `read_entry` makes on the frame `first` it read at the start of an entry, and
      * the continuation frames after it. */
    method FinishEntry(first: Result<Option<Frame>, Error>) returns (r: Result<Option<seq<Byte>>, Error>)
      modifies this`readPos
      ensures (r, readPos) == EntryFrom(meta, File(), first, old(readPos), 1)
    {
      if first.Err? {
        return Err(first.error);
      }
      if first.value.None? {
        return Ok(None);
      }
      var f := first.value.value;
      var left := FirstFrameChecks(meta, f);
      if left.Err? {
        return Err(left.error);
      }
      ghost var file := File();
      r := ReadContinuation(f, left.value);
      assert File() == file;
    }

    /** The loop of `read_entry`: `n` more frames of the entry `first` opened, each checked to
      * belong to it and to come next in order, their payloads appended to the first one's. */
    method ReadContinuation(first: Frame, n: nat) returns (r: Result<Option<seq<Byte>>, Error>)
      requires AsUsize(first.header.length) <= |first.payload|
      modifies this`readPos
      ensures (r, readPos) == ReadRest(meta, File(), old(readPos), first, 0, n, 1, Payload(first))
    {
      var count := 0;
      var bytes := Payload(first);
      while count < n
        invariant count <= n
        invariant ReadRest(meta, File(), readPos, first, count, n - count, 1, bytes) ==
                  ReadRest(meta, File(), old(readPos), first, 0, n, 1, Payload(first))
      {
        ghost var pos := readPos;
        var next := ReadFrame();
        if next.Err? {
          return Err(next.error);
        }
        if next.value.None? {
          return Err(MeetIncompleteEntry(first.header.total, count));
        }
        var g := next.value.value;
        var checked := NextFrameChecks(first, count, 1, g);
        if checked.Err? {
          return Err(checked.error);
        }
        ReadRestStep(meta, File(), pos, first, count, n - count, 1, bytes, g, readPos);
        bytes := bytes + Payload(g);
        count := count + 1;
      }
      return Ok(Some(bytes));
    }

    /** `write_frames`: refused on a read-only handle; otherwise each frame is written at the
      * writer's position and counted. */
    method WriteFrames(frames: seq<Frame>) returns (r: Result<(), Error>)
      modifies node, this`writePos, this`frameOffset, this`written
      ensures !writeEnable ==> r == Err(WriteOnReadOnlyFile(path)) && unchanged(node, this)
      ensures writeEnable ==>
        r == Ok(()) && frameOffset == old(frameOffset) + |frames| &&
        writePos == old(writePos) + |FramesBytes(frames)| && written == old(written) + frames
      ensures writeEnable && frames != [] ==> File() == Overwrite(old(File()), old(writePos), FramesBytes(frames))
      ensures frames == [] ==> File() == old(File())
    {
      if !writeEnable {
        return Err(WriteOnReadOnlyFile(path));
      }
      // The bytes of the frames written so far.
      ghost var done: seq<Byte> := [];
      for i := 0 to |frames|
        invariant frameOffset == old(frameOffset) + i && written == old(written) + frames[..i]
        invariant Wrote(old(File()), old(writePos), frames, i, done, File(), writePos)
      {
        ghost var (prev, at) := (File(), writePos);
        Write(FrameBytes(frames[i]));
        frameOffset := frameOffset + 1;
        written := written + [frames[i]];
        WroteMore(old(File()), old(writePos), frames, i, done, prev, at);
        AppendSnoc(old(written), frames, i);
        done := done + FrameBytes(frames[i]);
      }
      assert frames[..|frames|] == frames;
      return Ok(());
    }

    /** `append`: the payload cut into frames of the meta block's payload size (a `usize`, so
      * taken modulo 2^64; a zero size divides by zero) and written; the entry's offset names
      * this file, the handle's current sequence number and the first frame written. The
      * sequence number is not advanced. Appending to a file laid out as a meta block and whole
      * frames keeps it so. */
    method Append(payload: seq<Byte>) returns (r: Result<EntryOffset, Error>)
      requires |payload| < U64_LIMIT
      modifies node, this`writePos, this`frameOffset, this`written
      ensures AsUsize(meta.payloadBytes) == 0 ==>
        r == Err(Panic("attempt to calculate the remainder with a divisor of zero")) && unchanged(node, this)
      ensures AsUsize(meta.payloadBytes) != 0 && !writeEnable ==>
        r == Err(WriteOnReadOnlyFile(path)) && unchanged(node, this)
      ensures AsUsize(meta.payloadBytes) != 0 && writeEnable ==>
        var frames := CreatedFrames(payload, entryCurrentSeq, AsUsize(meta.payloadBytes));
        r == Ok(NewEntryOffset(meta.uuid, entryCurrentSeq, old(frameOffset))) &&
        frameOffset == old(frameOffset) + |frames| && written == old(written) + frames &&
        writePos == old(writePos) + |FramesBytes(frames)| &&
        File() == (if payload == [] then old(File()) else Overwrite(old(File()), old(writePos), FramesBytes(frames)))
      ensures old(Laid()) && writeEnable && 0 < AsUsize(meta.payloadBytes) ==> Laid()
    {
      ghost var wasLaid, before, start, end := Laid(), written, File(), writePos;
      var limit := AsUsize(meta.payloadBytes);
      if limit == 0 {
        return Err(Panic("attempt to calculate the remainder with a divisor of zero"));
      }
      var frames := BytesIoFrame.Create(payload, entryCurrentSeq, limit);
      var firstFrame := frameOffset;
      var entrySeq := entryCurrentSeq;
      CeilDivStep(|payload|, limit);
      assert frames == [] <==> payload == [];
      var w := WriteFrames(frames);
      if w.Err? {
        return Err(w.error);
      }
      if wasLaid {
        CreatedUniform(payload, entrySeq, meta);
        AppendLaid(meta, before, frames, start, end, firstFrame, File());
      }
      return Ok(NewEntryOffset(meta.uuid, entrySeq, firstFrame));
    }

    /** `seek_frame(n)`: the header of frame `n`, the reader left at that frame. The position
      * is computed in `usize` and panics beyond it; a seek past the end succeeds, so otherwise
      * the reader always lands on the frame's position. */
    method SeekFrame(n: nat) returns (r: Result<Option<Header>, Error>)
      modifies this`readPos
      ensures FramePos(meta, n).Err? ==> r == Err(FramePos(meta, n).error) && readPos == old(readPos)
      ensures FramePos(meta, n).Ok? ==>
        readPos == META_BYTES + FrameLen(meta) * n && r == ReadHeaderAt(meta, File(), readPos).0
    {
      if FrameLen(meta) >= U64_LIMIT {
        return Err(Panic("attempt to add with overflow"));
      }
      var product := FrameLen(meta) * n;
      if product >= U64_LIMIT {
        return Err(Panic("attempt to multiply with overflow"));
      }
      if META_BYTES + product >= U64_LIMIT {
        return Err(Panic("attempt to add with overflow"));
      }
      var bytes := META_BYTES + product;
      readPos := bytes;
      r := ReadHeader();
      readPos := bytes;
    }

    /** `seek_entry`: an offset into another file is not found; otherwise the reader is moved to
      * the offset's first frame, whose header must carry the entry's sequence number. */
    method SeekEntry(offset: EntryOffset) returns (r: Result<Option<()>, Error>)
      modifies this`readPos
      ensures r == SeekEntryResult(meta, File(), offset)
      ensures readPos == if meta.uuid != offset.entryId.fileId || FramePos(meta, offset.firstFrame).Err? then old(readPos)
                         else META_BYTES + FrameLen(meta) * offset.firstFrame
    {
      if meta.uuid != offset.entryId.fileId {
        return Ok(None);
      }
      var h := SeekFrame(offset.firstFrame);
      if h.Err? {
        return Err(h.error);
      }
      if h.value.None? {
        return Ok(None);
      }
      if h.value.value.entrySeq != offset.entryId.entrySeq {
        return Err(EntryMismatch(offset.entryId.entrySeq, h.value.value.entrySeq));
      }
      return Ok(Some(()));
    }
  }

  /** After `i` of `frames` were written from `pos0` on: `done` holds their bytes, the position
    * is past them, and the file has them laid over what it held. */
  ghost predicate Wrote(file0: seq<Byte>, pos0: nat, frames: seq<Frame>, i: nat, done: seq<Byte>, file: seq<Byte>, pos: nat) {
    i <= |frames| && done == FramesBytes(frames[..i]) && pos == pos0 + |done| &&
    file == if i == 0 then file0 else Overwrite(file0, pos0, done)
  }

  lemma WroteMore(file0: seq<Byte>, pos0: nat, frames: seq<Frame>, i: nat, done: seq<Byte>, file: seq<Byte>, pos: nat)
    requires i < |frames| && Wrote(file0, pos0, frames, i, done, file, pos)
    ensures var next := FrameBytes(frames[i]);
      Wrote(file0, pos0, frames, i + 1, done + next, Overwrite(file, pos, next), pos + |next|)
  {
    var next := FrameBytes(frames[i]);
    if i == 0 {
      NoFramesBytes(frames);
    }
    WriteStep(file0, pos0, i, done, next, file, pos);
    FramesBytesSnoc(frames, i);
    WroteOf(file0, pos0, frames, i + 1, done + next, Overwrite(file, pos, next), pos + |next|);
  }

  /** No frames are no bytes. */
  lemma NoFramesBytes(frames: seq<Frame>)
    ensures FramesBytes(frames[..0]) == []
  {
    assert frames[..0] == [] && Encoded([]) == [];
  }

  /** `Wrote` after at least one frame, from its parts. */
  lemma WroteOf(file0: seq<Byte>, pos0: nat, frames: seq<Frame>, i: nat, done: seq<Byte>, file: seq<Byte>, pos: nat)
    requires 0 < i <= |frames| && done == FramesBytes(frames[..i]) && pos == pos0 + |done|
    requires file == Overwrite(file0, pos0, done)
    ensures Wrote(file0, pos0, frames, i, done, file, pos)
  {
  }

  /** One more frame written right after the frames before it. */
  lemma WriteStep(file: seq<Byte>, pos: nat, i: nat, done: seq<Byte>, next: seq<Byte>, current: seq<Byte>, at: nat)
    requires current == if i == 0 then file else Overwrite(file, pos, done)
    requires i == 0 ==> done == []
    requires at == pos + |done|
    ensures Overwrite(current, at, next) == Overwrite(file, pos, done + next)
  {
    if i > 0 {
      OverwriteTwice(file, pos, done, next, at);
    } else {
      assert done + next == next && at == pos && current == file;
    }
  }

  /** A file laid out as the meta block followed by exactly the frames `written`, each as long
    * as the meta block announces, with the writer at its end and `count` counting the frames. */
  ghost predicate LaidOut(file: seq<Byte>, m: Meta, written: seq<Frame>, writePos: nat, count: nat) {
    file == MetaBytes(m) + FramesBytes(written) && Uniform(m, written) &&
    writePos == |file| && count == |written|
  }

  /** Frames of the announced length written at the end of a laid-out file lay it out anew. */
  lemma AppendLaid(m: Meta, before: seq<Frame>, frames: seq<Frame>, start: seq<Byte>, pos: nat, count: nat,
                   after: seq<Byte>)
    requires LaidOut(start, m, before, pos, count) && Uniform(m, frames)
    requires after == if frames == [] then start else Overwrite(start, pos, FramesBytes(frames))
    ensures LaidOut(after, m, before + frames, pos + |FramesBytes(frames)|, count + |frames|)
  {
    var all := before + frames;
    LaidAppend(m, before, frames);
    if frames == [] {
      assert all == before;
    }
    forall i | 0 <= i < |all| ensures |all[i].payload| == AsUsize(m.payloadBytes) {
      if i < |before| {
        assert all[i] == before[i];
      } else {
        assert all[i] == frames[i - |before|];
      }
    }
  }

  /** The frames `create` makes carry exactly the meta block's payload size. */
  lemma CreatedUniform(payload: seq<Byte>, entrySeq: U128, m: Meta)
    requires AsUsize(m.headerBytes) == HEADER_SIZE && 0 < AsUsize(m.payloadBytes) && |payload| < U64_LIMIT
    ensures Uniform(m, CreatedFrames(payload, entrySeq, AsUsize(m.payloadBytes)))
  {
    if payload != [] {
      CreatedLaid(payload, entrySeq, m);
    }
  }

  /** `BytesIO::create`: refuses an existing path; otherwise creates the file, then refuses a
    * zero payload size (leaving the empty file behind); otherwise writes a fresh meta block and
    * leaves the reader after it. */
  method Create(fs: FileSystem, path: string, payloadBytes: U128) returns (r: Result<BytesIO, Error>)
    modifies fs
    ensures path in old(fs.files) ==> r == Err(FileExisted(path)) && fs.files == old(fs.files)
    ensures path !in old(fs.files) ==>
      path in fs.files && fresh(fs.files[path]) && fs.files == old(fs.files)[path := fs.files[path]]
    ensures path !in old(fs.files) && payloadBytes == 0 ==>
      r == Err(PayloadLimitZero) && fs.files[path].data == []
    ensures path !in old(fs.files) && payloadBytes != 0 ==>
      r.Ok? && fresh(r.value) && r.value.node == fs.files[path] && r.value.path == path &&
      r.value.writeEnable && r.value.meta == NewMeta(payloadBytes) && r.value.entryCurrentSeq == 0 &&
      r.value.readPos == META_BYTES && r.value.written == [] && r.value.Laid() &&
      fs.files[path].data == MetaBytes(NewMeta(payloadBytes))
  {
    if path in fs.files {
      return Err(FileExisted(path));
    }
    var node := new Inode([]);
    fs.files := fs.files[path := node];
    if payloadBytes == 0 {
      return Err(PayloadLimitZero);
    }
    var file := new BytesIO(node, path, true, NewMeta(payloadBytes));
    file.Write(MetaBytes(file.meta));
    OverwriteEnd([], MetaBytes(file.meta));
    file.readPos := META_BYTES;
    LaidNothing(file.meta);
    return Ok(file);
  }

  /** `BytesIO::open`, with the writer's starting position as a parameter: a missing file, a
    * short meta block or an incompatible one are refused; otherwise the handle counts the frames,
    * takes up the sequence numbering after the last header and leaves the reader after the meta
    * block. */
  method OpenWith(fs: FileSystem, path: string, writeEnable: bool, writerAtEnd: bool) returns (r: Result<BytesIO, Error>)
    ensures path !in fs.files ==> r == Err(NotFound(path))
    ensures path in fs.files && OpenFile(path, fs.files[path].data).Err? ==>
      r == Err(OpenFile(path, fs.files[path].data).error)
    ensures path in fs.files && OpenFile(path, fs.files[path].data).Ok? ==>
      var o := OpenFile(path, fs.files[path].data).value;
      r.Ok? && fresh(r.value) && r.value.node == fs.files[path] && r.value.path == path &&
      r.value.writeEnable == writeEnable && r.value.meta == o.meta &&
      r.value.frameOffset == o.frameOffset && r.value.entryCurrentSeq == o.entryCurrentSeq &&
      r.value.readPos == META_BYTES &&
      r.value.writePos == (if writerAtEnd then |fs.files[path].data| else 0)
  {
    if path !in fs.files {
      return Err(NotFound(path));
    }
    var node := fs.files[path];
    var o := OpenFile(path, node.data);
    if o.Err? {
      return Err(o.error);
    }
    var file := new BytesIO(node, path, writeEnable, o.value.meta);
    file.frameOffset := o.value.frameOffset;
    file.entryCurrentSeq := o.value.entryCurrentSeq;
    file.readPos := META_BYTES;
    if writerAtEnd {
      file.writePos := |node.data|;
    }
    return Ok(file);
  }

  /** `BytesIO::open` as written: the writer is opened without seeking, so it starts at the
    * beginning of the file, over the meta block. */
  method OpenAsWritten(fs: FileSystem, path: string, writeEnable: bool) returns (r: Result<BytesIO, Error>)
    ensures path !in fs.files ==> r == Err(NotFound(path))
    ensures path in fs.files && OpenFile(path, fs.files[path].data).Ok? ==>
      r.Ok? && fresh(r.value) && r.value.node == fs.files[path] && r.value.writePos == 0 &&
      r.value.meta == OpenFile(path, fs.files[path].data).value.meta
  {
    r := OpenWith(fs, path, writeEnable, false);
  }

  /** `BytesIO::open` with the writer at the end of the file, where `append` must write. */
  method Open(fs: FileSystem, path: string, writeEnable: bool) returns (r: Result<BytesIO, Error>)
    ensures path !in fs.files ==> r == Err(NotFound(path))
    ensures path in fs.files && OpenFile(path, fs.files[path].data).Err? ==>
      r == Err(OpenFile(path, fs.files[path].data).error)
    ensures path in fs.files && OpenFile(path, fs.files[path].data).Ok? ==>
      var o := OpenFile(path, fs.files[path].data).value;
      r.Ok? && fresh(r.value) && r.value.node == fs.files[path] && r.value.path == path &&
      r.value.writeEnable == writeEnable && r.value.meta == o.meta &&
      r.value.frameOffset == o.frameOffset && r.value.entryCurrentSeq == o.entryCurrentSeq &&
      r.value.readPos == META_BYTES && r.value.writePos == |fs.files[path].data|
  {
    r := OpenWith(fs, path, writeEnable, true);
  }
}
