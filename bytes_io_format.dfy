/** The on-disk layout of a framed file and what reading it yields: a 96-byte `Meta` block
  * (version, uuid, header size, payload size per frame) followed by fixed-length frames. Reads
  * are functions of the file's bytes and a read position. */
module BytesIoFormat {
  import opened Wrappers
  import opened LittleEndian
  import opened Chunking
  import opened BytesIoCommon
  import opened BytesIoFrame
  import opened FileImage

  /** The in-memory size of `Meta`: the 48-byte version and three `u128` fields. */
  const META_BYTES: nat := 96

  datatype Meta = Meta(version: Version, uuid: U128, headerBytes: U128, payloadBytes: U128)

  /** `Meta::new(payload_bytes)`: current version, uuid 0, frame headers of `HEADER_SIZE`. */
  function NewMeta(payloadBytes: U128): Meta {
    Meta(NewVersion(), 0, HEADER_SIZE, payloadBytes)
  }

  /** `frame_len`, the length of one frame in the file: the two sizes, each cast to `usize`
    * (keeping its low 64 bits), added. The `usize` addition panics when this sum reaches 2^64,
    * so every caller checks `FrameLen(m) < U64_LIMIT` first. */
  function FrameLen(m: Meta): nat {
    AsUsize(m.headerBytes) + AsUsize(m.payloadBytes)
  }

  /** A fresh meta block announces `HEADER_SIZE`-byte headers, so its frames are
    * `HEADER_SIZE` bytes longer than the payload size taken modulo 2^64, and it is
    * compatible. */
  lemma NewMetaFrameLen(payloadBytes: U128)
    ensures NewMeta(payloadBytes).headerBytes == HEADER_SIZE
    ensures FrameLen(NewMeta(payloadBytes)) == HEADER_SIZE + AsUsize(payloadBytes)
    ensures payloadBytes < U64_LIMIT ==> FrameLen(NewMeta(payloadBytes)) == HEADER_SIZE + payloadBytes
    ensures IsCompatible(NewMeta(payloadBytes).version)
  {
  }

  /** The errors the file operations report; `Panic` stands for a panic of the program. */
  datatype Error =
    | MetaMissing(path: string)
    | Incompatible(current: Version, got: Version)
    | FileExisted(path: string)
    | PayloadLimitZero
    | EntryMismatch(expected: U128, actual: U128)
    | MeetIncompleteEntry(total: U128, count: nat)
    | WriteOnReadOnlyFile(path: string)
    | NotFound(path: string)
    | Panic(reason: string)

  /** `Meta::to_bytes`: the six `u128` fields, version first. */
  function MetaBytes(m: Meta): (r: seq<Byte>)
    ensures |r| == META_BYTES
  {
    Fields([m.version.major, m.version.minor, m.version.patch, m.uuid, m.headerBytes, m.payloadBytes])
  }

  /** The meta block starts with the version's own encoding. */
  lemma MetaLayout(m: Meta)
    ensures MetaBytes(m) == VersionBytes(m.version) + Fields([m.uuid, m.headerBytes, m.payloadBytes])
  {
    var v, rest := [m.version.major, m.version.minor, m.version.patch], [m.uuid, m.headerBytes, m.payloadBytes];
    assert v + rest == [m.version.major, m.version.minor, m.version.patch, m.uuid, m.headerBytes, m.payloadBytes];
    FieldsConcat(v, rest);
  }

  /** `Meta::try_from` on exactly `META_BYTES` bytes: an incompatible version is refused. */
  function MetaFromBytes(bs: seq<Byte>): (r: Result<Meta, Error>)
    requires |bs| == META_BYTES
  {
    var version := Version(FieldAt(bs, 0), FieldAt(bs, 1), FieldAt(bs, 2));
    if !IsCompatible(version) then
      Err(Incompatible(CURRENT_VERSION, version))
    else
      Ok(Meta(version, FieldAt(bs, 3), FieldAt(bs, 4), FieldAt(bs, 5)))
  }

  /** Decoding inverts encoding for every compatible meta block, and refuses exactly the
    * incompatible ones. */
  lemma MetaRoundTrip(m: Meta)
    ensures IsCompatible(m.version) ==> MetaFromBytes(MetaBytes(m)) == Ok(m)
    ensures !IsCompatible(m.version) ==> MetaFromBytes(MetaBytes(m)) == Err(Incompatible(CURRENT_VERSION, m.version))
  {
    var fs := [m.version.major, m.version.minor, m.version.patch, m.uuid, m.headerBytes, m.payloadBytes];
    FieldAtFields(fs, 0);
    FieldAtFields(fs, 1);
    FieldAtFields(fs, 2);
    FieldAtFields(fs, 3);
    FieldAtFields(fs, 4);
    FieldAtFields(fs, 5);
  }

  /** Every 96 bytes that decode re-encode to themselves. */
  lemma MetaBytesRoundTrip(bs: seq<Byte>)
    requires |bs| == META_BYTES && MetaFromBytes(bs).Ok?
    ensures MetaBytes(MetaFromBytes(bs).value) == bs
  {
    var m := MetaFromBytes(bs).value;
    FieldsOf(bs, [m.version.major, m.version.minor, m.version.patch, m.uuid, m.headerBytes, m.payloadBytes]);
  }

  // ---- reading ----

  /** `read_frame` at `pos`: the next `frame_len` bytes decoded as a frame. */
  function ReadFrameAt(m: Meta, file: seq<Byte>, pos: nat): (Result<Option<Frame>, Error>, nat) {
    if FrameLen(m) >= U64_LIMIT then (Err(Panic("attempt to add with overflow")), pos)
    else
      var (buf, next) := ReadInto(file, pos, FrameLen(m));
      if buf.None? then (Ok(None), next)
      else if |buf.value| < HEADER_SIZE then (Err(Panic("frame shorter than its header")), next)
      else (Ok(Some(FrameFromBytes(buf.value))), next)
  }

  /** `read_header` at `pos`: the next `header_bytes as usize` bytes decoded as a frame header
    * (the decoder asserts that there are exactly `HEADER_SIZE` of them). */
  function ReadHeaderAt(m: Meta, file: seq<Byte>, pos: nat): (Result<Option<Header>, Error>, nat) {
    var (buf, next) := ReadInto(file, pos, AsUsize(m.headerBytes));
    if buf.None? then (Ok(None), next)
    else if |buf.value| != HEADER_SIZE then (Err(Panic("header of unexpected size")), next)
    else (Ok(Some(HeaderFromBytes(buf.value))), next)
  }

  /** The continuation frames of `read_entry`: `left` more frames of the entry that `first`
    * opened, the `count`-th of which must carry `frame_seq == count + numbering`. The program
    * checks `count + 0`; the frames `create` writes carry `count + 1`. */
  function ReadRest(m: Meta, file: seq<Byte>, pos: nat, first: Frame, count: nat, left: nat,
                    numbering: nat, acc: seq<Byte>): (Result<Option<seq<Byte>>, Error>, nat)
    decreases left
  {
    if left == 0 then (Ok(Some(acc)), pos)
    else
      var (r, next) := ReadFrameAt(m, file, pos);
      if r.Err? then (Err(r.error), next)
      else if r.value.None? then (Err(MeetIncompleteEntry(first.header.total, count)), next)
      else
        var f := r.value.value;
        var checked := NextFrameChecks(first, count, numbering, f);
        if checked.Err? then (Err(checked.error), next)
        else ReadRest(m, file, next, first, count + 1, left - 1, numbering, acc + Payload(f))
  }

  /** The checks `read_entry` makes on the `count`-th continuation frame `f` of the entry
    * `first` opened, in the program's order: the same `entry_seq`, the expected `frame_seq`, and
    * a `length` that fits the payload it slices. */
  function NextFrameChecks(first: Frame, count: nat, numbering: nat, f: Frame): (r: Result<(), Error>)
    ensures r.Ok? ==> AsUsize(f.header.length) <= |f.payload|
  {
    if f.header.entrySeq != first.header.entrySeq then Err(Panic("entry_seq of frame mismatch"))
    else if f.header.frameSeq != count + numbering then Err(Panic("frame_seq of frame mismatch"))
    else if AsUsize(f.header.length) > |f.payload| then Err(Panic("frame length beyond its payload"))
    else Ok(())
  }

  /** `read_entry` at `pos`: `None` at the end of the file; a panic when the frame there does not
    * start an entry; otherwise the payloads of its `total` frames joined. */
  function ReadEntryAt(m: Meta, file: seq<Byte>, pos: nat, numbering: nat): (Result<Option<seq<Byte>>, Error>, nat) {
    var (r, next) := ReadFrameAt(m, file, pos);
    EntryFrom(m, file, r, next, numbering)
  }

  /** The capacity `read_entry` reserves for an entry of `total` frames: the payload size
    * times `total`, both cast to `usize`. The `usize` product panics when it reaches 2^64, and
    * `Vec::with_capacity` panics when it is more than `isize::MAX` bytes. */
  function EntryCapacity(m: Meta, total: nat): nat {
    AsUsize(m.payloadBytes) * AsUsize(total)
  }

  /** The rest of `read_entry` once the frame at its start was read as `r`, leaving the reader
    * at `next`. */
  function EntryFrom(m: Meta, file: seq<Byte>, r: Result<Option<Frame>, Error>, next: nat, numbering: nat): (Result<Option<seq<Byte>>, Error>, nat) {
    if r.Err? then (Err(r.error), next)
    else if r.value.None? then (Ok(None), next)
    else
      var f := r.value.value;
      var left := FirstFrameChecks(m, f);
      if left.Err? then (Err(left.error), next)
      else ReadRest(m, file, next, f, 0, left.value, numbering, Payload(f))
  }

  /** The checks `read_entry` makes on the frame `f` that starts an entry, in the program's
    * order: it must be a first frame, the capacity reserved for the entry must fit an `isize`,
    * its `length` must fit the payload it slices, and `total - 1` must not underflow. Passing
    * them, the number of continuation frames to read. */
  function FirstFrameChecks(m: Meta, f: Frame): (r: Result<nat, Error>)
    ensures r.Ok? ==> AsUsize(f.header.length) <= |f.payload| && r.value + 1 == f.header.total
  {
    if !IsFirst(f) then Result<nat, Error>.Err(Panic("read from middle of entry"))
    else if EntryCapacity(m, f.header.total) >= U64_LIMIT then Result<nat, Error>.Err(Panic("attempt to multiply with overflow"))
    else if EntryCapacity(m, f.header.total) >= I64_LIMIT then Result<nat, Error>.Err(Panic("capacity overflow"))
    else if AsUsize(f.header.length) > |f.payload| then Result<nat, Error>.Err(Panic("frame length beyond its payload"))
    else if f.header.total == 0 then Result<nat, Error>.Err(Panic("attempt to subtract with overflow"))
    else Ok(f.header.total - 1)
  }

  /** After a first frame, reading an entry is reading its continuation frames. */
  lemma ReadEntryStart(m: Meta, file: seq<Byte>, pos: nat, numbering: nat, f: Frame, next: nat,
                        left: nat, acc: seq<Byte>)
    requires ReadFrameAt(m, file, pos) == (Ok(Some(f)), next)
    requires FirstFrameChecks(m, f) == Ok(left)
    requires acc == Payload(f)
    ensures ReadEntryAt(m, file, pos, numbering) == ReadRest(m, file, next, f, 0, left, numbering, acc)
  {
    FirstFrame(m, file, f, next, numbering, left, acc);
  }

  lemma FirstFrame(m: Meta, file: seq<Byte>, f: Frame, next: nat, numbering: nat, left: nat, acc: seq<Byte>)
    requires FirstFrameChecks(m, f) == Ok(left)
    requires acc == Payload(f)
    ensures EntryFrom(m, file, Ok(Some(f)), next, numbering) == ReadRest(m, file, next, f, 0, left, numbering, acc)
  {
  }

  /** A continuation frame that passes every check moves the read on by one frame. */
  lemma ReadRestStep(m: Meta, file: seq<Byte>, pos: nat, first: Frame, count: nat, left: nat,
                     numbering: nat, acc: seq<Byte>, f: Frame, next: nat)
    requires left > 0 && ReadFrameAt(m, file, pos) == (Ok(Some(f)), next)
    requires NextFrameChecks(first, count, numbering, f) == Ok(())
    ensures ReadRest(m, file, pos, first, count, left, numbering, acc) ==
      ReadRest(m, file, next, first, count + 1, left - 1, numbering, acc + Payload(f))
  {
  }

  // ---- the layout written by `append` ----

  /** Each frame's bytes. */
  function Encoded(fs: seq<Frame>): (es: seq<seq<Byte>>)
    ensures |es| == |fs|
  {
    seq(|fs|, i requires 0 <= i < |fs| => FrameBytes(fs[i]))
  }

  /** Frames written back to back. */
  function FramesBytes(fs: seq<Frame>): seq<Byte> {
    Flatten(Encoded(fs))
  }

  lemma FramesBytesAppend(a: seq<Frame>, b: seq<Frame>)
    ensures FramesBytes(a + b) == FramesBytes(a) + FramesBytes(b)
  {
    assert Encoded(a + b) == Encoded(a) + Encoded(b);
    FlattenConcat(Encoded(a), Encoded(b));
  }

  lemma FramesBytesSnoc(fs: seq<Frame>, i: nat)
    requires i < |fs|
    ensures FramesBytes(fs[..i + 1]) == FramesBytes(fs[..i]) + FrameBytes(fs[i])
  {
    assert Encoded(fs[..i + 1]) == Encoded(fs[..i]) + [FrameBytes(fs[i])];
    FlattenAppend(Encoded(fs[..i]), FrameBytes(fs[i]));
  }

  /** Every frame has the length `m` announces: headers of `HEADER_SIZE` bytes and payloads of
    * `payload_bytes as usize`. */
  predicate Uniform(m: Meta, fs: seq<Frame>) {
    AsUsize(m.headerBytes) == HEADER_SIZE && forall i :: 0 <= i < |fs| ==> |fs[i].payload| == AsUsize(m.payloadBytes)
  }

  lemma FramesBytesLength(m: Meta, fs: seq<Frame>)
    requires Uniform(m, fs)
    ensures |FramesBytes(fs)| == |fs| * FrameLen(m)
  {
    FlattenUniform(Encoded(fs), FrameLen(m));
  }

  /** A frame of the announced length read where its bytes lie. */
  lemma ReadFrameOf(m: Meta, file: seq<Byte>, p: nat, f: Frame)
    requires AsUsize(m.headerBytes) == HEADER_SIZE && |f.payload| == AsUsize(m.payloadBytes) && FrameLen(m) < U64_LIMIT
    requires p + |FrameBytes(f)| <= |file| && file[p..p + |FrameBytes(f)|] == FrameBytes(f)
    ensures ReadFrameAt(m, file, p) == (Ok(Some(f)), p + FrameLen(m))
  {
    FrameRoundTrip(f);
  }

  /** In a file holding `pre`, then the frames `fs`, then anything, the frame read at the
    * `k`-th boundary is `fs[k]`, and the reader moves on to the next boundary. */
  lemma ReadLaidFrame(m: Meta, pre: seq<Byte>, fs: seq<Frame>, post: seq<Byte>, k: nat)
    requires Uniform(m, fs) && FrameLen(m) < U64_LIMIT && k < |fs|
    ensures var ps := Starts(pre, Encoded(fs));
      ReadFrameAt(m, pre + FramesBytes(fs) + post, ps[k]) == (Ok(Some(fs[k])), ps[k + 1])
  {
    var es, file := Encoded(fs), pre + FramesBytes(fs) + post;
    var ps, f := Starts(pre, es), fs[k];
    PieceAt(pre, es, post, k);
    assert es[k] == FrameBytes(f) && |f.payload| == AsUsize(m.payloadBytes);
    assert ps[k + 1] == ps[k] + FrameLen(m);
    ReadFrameOf(m, file, ps[k], f);
  }

  lemma ReadLaidFrames(m: Meta, pre: seq<Byte>, fs: seq<Frame>, post: seq<Byte>)
    requires Uniform(m, fs) && FrameLen(m) < U64_LIMIT
    ensures var ps := Starts(pre, Encoded(fs));
      forall j :: 0 <= j < |fs| ==>
        ReadFrameAt(m, pre + FramesBytes(fs) + post, ps[j]) == (Ok(Some(fs[j])), ps[j + 1])
  {
    forall j | 0 <= j < |fs| {
      ReadLaidFrame(m, pre, fs, post, j);
    }
  }

  lemma LaidRun(m: Meta, pre: seq<Byte>, fs: seq<Frame>, post: seq<Byte>)
    requires Uniform(m, fs) && FrameLen(m) < U64_LIMIT
    ensures forall j :: 0 <= j < |fs| ==> ReadsAt(m, pre + FramesBytes(fs) + post, Starts(pre, Encoded(fs)), fs, j)
  {
    forall j | 0 <= j < |fs| ensures ReadsAt(m, pre + FramesBytes(fs) + post, Starts(pre, Encoded(fs)), fs, j) {
      ReadLaidFrame(m, pre, fs, post, j);
    }
  }

  /** A whole entry's frames `fs` at the boundaries `ps` of `file`. */
  ghost predicate Run(m: Meta, file: seq<Byte>, ps: seq<nat>, fs: seq<Frame>) {
    OneEntry(m, fs) && |ps| == |fs| + 1 && forall j :: 0 <= j < |fs| ==> ReadsAt(m, file, ps, fs, j)
  }

  /** The frames `fs` are all of one entry, numbered from 0, each with its payload long enough,
    * the first announcing how many there are and the capacity for them fitting an `isize`. */
  predicate OneEntry(m: Meta, fs: seq<Frame>) {
    0 < |fs| < U64_LIMIT && fs[0].header.total as int == |fs| &&
    EntryCapacity(m, fs[0].header.total) < I64_LIMIT &&
    (forall j :: 0 <= j < |fs| ==> fs[j].header.entrySeq == fs[0].header.entrySeq) &&
    (forall j :: 0 <= j < |fs| ==> fs[j].header.frameSeq == j) &&
    (forall j :: 0 <= j < |fs| ==> AsUsize(fs[j].header.length) <= |fs[j].payload|)
  }

  /** Reading at the `j`-th of the boundaries `ps` gives the `j`-th of `fs` and ends at the next. */
  ghost predicate ReadsAt(m: Meta, file: seq<Byte>, ps: seq<nat>, fs: seq<Frame>, j: nat) {
    j < |fs| && |ps| == |fs| + 1 && ReadFrameAt(m, file, ps[j]) == (Ok(Some(fs[j])), ps[j + 1])
  }

  /** Reading continuation frames along a run of frames that sit at the boundaries `ps`, when
    * the check numbers them from 1 as `create` does. */
  lemma {:induction false} ReadRestAlong(m: Meta, file: seq<Byte>, ps: seq<nat>, fs: seq<Frame>, k: nat)
    requires Run(m, file, ps, fs) && 1 <= k <= |fs|
    ensures ReadRest(m, file, ps[k], fs[0], k - 1, |fs| - k, 1, JoinPayloads(fs[..k]))
         == (Ok(Some(JoinPayloads(fs))), ps[|fs|])
    decreases |fs| - k
  {
    if k == |fs| {
      AlongDone(m, file, ps, fs);
    } else {
      var next := k + 1;
      ReadRestAlong(m, file, ps, fs, next);
      AlongStep(m, file, ps, fs, k, next);
    }
  }

  /** Past the last frame of a run, all its payloads have been joined. */
  lemma AlongDone(m: Meta, file: seq<Byte>, ps: seq<nat>, fs: seq<Frame>)
    requires Run(m, file, ps, fs)
    ensures ReadRest(m, file, ps[|fs|], fs[0], |fs| - 1, 0, 1, JoinPayloads(fs[..|fs|]))
         == (Ok(Some(JoinPayloads(fs))), ps[|fs|])
  {
    assert fs[..|fs|] == fs;
  }

  /** The `k`-th frame of a run passes the checks and adds its payload. */
  lemma AlongStep(m: Meta, file: seq<Byte>, ps: seq<nat>, fs: seq<Frame>, k: nat, next: nat)
    requires Run(m, file, ps, fs) && 1 <= k < |fs| && next == k + 1
    requires ReadRest(m, file, ps[next], fs[0], next - 1, |fs| - next, 1, JoinPayloads(fs[..next]))
         == (Ok(Some(JoinPayloads(fs))), ps[|fs|])
    ensures ReadRest(m, file, ps[k], fs[0], k - 1, |fs| - k, 1, JoinPayloads(fs[..k]))
         == (Ok(Some(JoinPayloads(fs))), ps[|fs|])
  {
    assert ReadsAt(m, file, ps, fs, k);
    JoinSnoc(fs, k);
    ReadRestStep(m, file, ps[k], fs[0], k - 1, |fs| - k, 1, JoinPayloads(fs[..k]), fs[k], ps[k + 1]);
  }

  /** Reading a whole entry along a run of frames at the boundaries `ps`: the first opens the
    * entry and announces the run's length. */
  lemma ReadEntryAlong(m: Meta, file: seq<Byte>, ps: seq<nat>, fs: seq<Frame>, start: nat, end: nat)
    requires Run(m, file, ps, fs) && ps[0] == start && ps[|fs|] == end
    ensures ReadEntryAt(m, file, start, 1) == (Ok(Some(JoinPayloads(fs))), end)
  {
    RunHead(m, file, ps, fs);
    ReadRestAlong(m, file, ps, fs, 1);
    EntryThen(m, file, start, fs[0], ps[1], |fs| - 1, JoinPayloads(fs[..1]), (Ok(Some(JoinPayloads(fs))), end));
  }

  /** An entry whose first frame opens it reads as its continuation frames do. */
  lemma EntryThen(m: Meta, file: seq<Byte>, start: nat, f: Frame, next: nat, left: nat, acc: seq<Byte>,
                  result: (Result<Option<seq<Byte>>, Error>, nat))
    requires ReadFrameAt(m, file, start) == (Ok(Some(f)), next)
    requires FirstFrameChecks(m, f) == Ok(left) && acc == Payload(f)
    requires ReadRest(m, file, next, f, 0, left, 1, acc) == result
    ensures ReadEntryAt(m, file, start, 1) == result
  {
    ReadEntryStart(m, file, start, 1, f, next, left, acc);
  }

  /** The first frame of a run opens an entry. */
  lemma RunHead(m: Meta, file: seq<Byte>, ps: seq<nat>, fs: seq<Frame>)
    requires Run(m, file, ps, fs)
    ensures ReadFrameAt(m, file, ps[0]) == (Ok(Some(fs[0])), ps[1])
    ensures FirstFrameChecks(m, fs[0]) == Ok(|fs| - 1)
    ensures JoinPayloads(fs[..1]) == Payload(fs[0])
  {
    assert ReadsAt(m, file, ps, fs, 0);
    EntryHead(m, fs);
  }

  lemma EntryHead(m: Meta, fs: seq<Frame>)
    requires OneEntry(m, fs)
    ensures FirstFrameChecks(m, fs[0]) == Ok(|fs| - 1)
    ensures JoinPayloads(fs[..1]) == Payload(fs[0])
  {
    JoinOne(fs);
  }

  lemma JoinOne(fs: seq<Frame>)
    requires 0 < |fs| && forall j :: 0 <= j < |fs| ==> AsUsize(fs[j].header.length) <= |fs[j].payload|
    ensures JoinPayloads(fs[..1]) == Payload(fs[0])
  {
    assert fs[..1] == [fs[0]] && fs[..1][..0] == [];
  }

  lemma FramesStarts(pre: seq<Byte>, fs: seq<Frame>)
    ensures Starts(pre, Encoded(fs))[0] == |pre| && Starts(pre, Encoded(fs))[|fs|] == |pre| + |FramesBytes(fs)|
  {
    StartsEnds(pre, Encoded(fs));
  }

  /** Reading back an entry: whatever precedes them in the file, the frames `create` made from
    * a non-empty payload read back as that payload, and the reader ends right after them, when
    * continuation frames are checked against the numbering `create` uses. */
  lemma ReadBackEntry(m: Meta, pre: seq<Byte>, payload: seq<Byte>, entrySeq: U128, post: seq<Byte>)
    requires AsUsize(m.headerBytes) == HEADER_SIZE && 0 < AsUsize(m.payloadBytes) && FrameLen(m) < U64_LIMIT
    requires 0 < |payload| < U64_LIMIT
    requires EntryCapacity(m, CeilDiv(|payload|, AsUsize(m.payloadBytes))) < I64_LIMIT
    ensures var frames := FramesBytes(CreatedFrames(payload, entrySeq, AsUsize(m.payloadBytes)));
      ReadEntryAt(m, pre + frames + post, |pre|, 1) == (Ok(Some(payload)), |pre + frames|)
  {
    var fs := CreatedFrames(payload, entrySeq, AsUsize(m.payloadBytes));
    CreatedRun(m, pre, payload, entrySeq, post);
    FramesStarts(pre, fs);
    ReadEntryAlong(m, pre + FramesBytes(fs) + post, Starts(pre, Encoded(fs)), fs, |pre|, |pre + FramesBytes(fs)|);
  }

  /** `create`'s frames, laid after `pre`, form one entry's run that joins back to the payload. */
  lemma CreatedRun(m: Meta, pre: seq<Byte>, payload: seq<Byte>, entrySeq: U128, post: seq<Byte>)
    requires AsUsize(m.headerBytes) == HEADER_SIZE && 0 < AsUsize(m.payloadBytes) && FrameLen(m) < U64_LIMIT
    requires 0 < |payload| < U64_LIMIT
    requires EntryCapacity(m, CeilDiv(|payload|, AsUsize(m.payloadBytes))) < I64_LIMIT
    ensures var fs := CreatedFrames(payload, entrySeq, AsUsize(m.payloadBytes));
      Run(m, pre + FramesBytes(fs) + post, Starts(pre, Encoded(fs)), fs) && JoinPayloads(fs) == payload
  {
    var fs := CreatedFrames(payload, entrySeq, AsUsize(m.payloadBytes));
    CreatedLaid(payload, entrySeq, m);
    CreatedJoin(payload, entrySeq, AsUsize(m.payloadBytes));
    LaidRun(m, pre, fs, post);
  }

  /** The facts about `create`'s frames that reading relies on. */
  lemma CreatedLaid(payload: seq<Byte>, entrySeq: U128, m: Meta)
    requires AsUsize(m.headerBytes) == HEADER_SIZE && 0 < AsUsize(m.payloadBytes)
    requires 0 < |payload| < U64_LIMIT
    ensures var fs := CreatedFrames(payload, entrySeq, AsUsize(m.payloadBytes));
      Uniform(m, fs) && 0 < |fs| < U64_LIMIT && IsFirst(fs[0]) && fs[0].header.total as int == |fs| &&
      (forall i :: 0 <= i < |fs| ==> fs[i].header.entrySeq == entrySeq) &&
      (forall i :: 0 <= i < |fs| ==> fs[i].header.frameSeq == i) &&
      (forall i :: 0 <= i < |fs| ==> AsUsize(fs[i].header.length) <= |fs[i].payload|)
  {
    var fs := CreatedFrames(payload, entrySeq, AsUsize(m.payloadBytes));
    CeilDivStep(|payload|, AsUsize(m.payloadBytes));
    CeilDivBound(|payload|, AsUsize(m.payloadBytes));
    forall i | 0 <= i < |fs|
      ensures |fs[i].payload| == AsUsize(m.payloadBytes) && fs[i].header.entrySeq == entrySeq
      ensures fs[i].header.frameSeq == i && AsUsize(fs[i].header.length) <= |fs[i].payload|
    {
      CreatedHeaders(payload, entrySeq, AsUsize(m.payloadBytes), i);
    }
    CreatedHeaders(payload, entrySeq, AsUsize(m.payloadBytes), 0);
  }

  /** The program's own check numbers continuation frames from 0, so every entry of more than
    * one frame that `create` wrote fails with a panic when read back. */
  lemma ReadBackEntryAsWritten(m: Meta, pre: seq<Byte>, payload: seq<Byte>, entrySeq: U128, post: seq<Byte>)
    requires AsUsize(m.headerBytes) == HEADER_SIZE && 0 < AsUsize(m.payloadBytes) && FrameLen(m) < U64_LIMIT
    requires AsUsize(m.payloadBytes) < |payload| < U64_LIMIT
    requires EntryCapacity(m, CeilDiv(|payload|, AsUsize(m.payloadBytes))) < I64_LIMIT
    ensures var frames := FramesBytes(CreatedFrames(payload, entrySeq, AsUsize(m.payloadBytes)));
      ReadEntryAt(m, pre + frames + post, |pre|, 0).0 == Err(Panic("frame_seq of frame mismatch"))
  {
    var fs := CreatedFrames(payload, entrySeq, AsUsize(m.payloadBytes));
    var file, ps := pre + FramesBytes(fs) + post, Starts(pre, Encoded(fs));
    CreatedRun(m, pre, payload, entrySeq, post);
    CeilDivStep(|payload|, AsUsize(m.payloadBytes));
    CeilDivStep(|payload| - AsUsize(m.payloadBytes), AsUsize(m.payloadBytes));
    FramesStarts(pre, fs);
    RunSecond(m, file, ps, fs);
    MismatchAfter(m, file, ps[0], fs[0], ps[1], |fs| - 1, fs[1], ps[2]);
  }

  /** The first two frames of a run: the first opens the entry, the second follows it. */
  lemma RunSecond(m: Meta, file: seq<Byte>, ps: seq<nat>, fs: seq<Frame>)
    requires Run(m, file, ps, fs) && 2 <= |fs|
    ensures ReadFrameAt(m, file, ps[0]) == (Ok(Some(fs[0])), ps[1])
    ensures FirstFrameChecks(m, fs[0]) == Ok(|fs| - 1)
    ensures ReadFrameAt(m, file, ps[1]) == (Ok(Some(fs[1])), ps[2])
    ensures fs[1].header.entrySeq == fs[0].header.entrySeq && fs[1].header.frameSeq == 1
  {
    RunHead(m, file, ps, fs);
    assert ReadsAt(m, file, ps, fs, 1);
  }

  /** With the program's numbering from 0, the frame after the first is refused. */
  lemma MismatchAfter(m: Meta, file: seq<Byte>, start: nat, f: Frame, next: nat, left: nat, g: Frame, after: nat)
    requires ReadFrameAt(m, file, start) == (Ok(Some(f)), next)
    requires FirstFrameChecks(m, f) == Ok(left) && left > 0
    requires ReadFrameAt(m, file, next) == (Ok(Some(g)), after)
    requires g.header.entrySeq == f.header.entrySeq && g.header.frameSeq == 1
    ensures ReadEntryAt(m, file, start, 0).0 == Err(Panic("frame_seq of frame mismatch"))
  {
    ReadEntryStart(m, file, start, 0, f, next, left, Payload(f));
  }

  // ---- seeking ----

  /** A header read where a frame's bytes lie. */
  lemma ReadHeaderOf(m: Meta, file: seq<Byte>, p: nat, f: Frame)
    requires AsUsize(m.headerBytes) == HEADER_SIZE
    requires p + |FrameBytes(f)| <= |file| && file[p..p + |FrameBytes(f)|] == FrameBytes(f)
    ensures ReadHeaderAt(m, file, p).0 == Ok(Some(f.header))
  {
    assert file[p..p + HEADER_SIZE] == FrameBytes(f)[..HEADER_SIZE] == HeaderBytes(f.header);
    HeaderRoundTrip(f.header);
  }

  /** In a file holding `pre`, then the uniform frames `fs`, then anything, the header read at
    * `|pre| + k * frame_len` is the header of `fs[k]`. */
  lemma ReadLaidHeader(m: Meta, pre: seq<Byte>, fs: seq<Frame>, post: seq<Byte>, k: nat)
    requires Uniform(m, fs) && k < |fs|
    ensures ReadHeaderAt(m, pre + FramesBytes(fs) + post, |pre| + FrameLen(m) * k).0 == Ok(Some(fs[k].header))
  {
    BoundaryAt(m, pre, fs, k);
    ReadLaidHeaderAt(m, pre, fs, post, k);
  }

  lemma ReadLaidHeaderAt(m: Meta, pre: seq<Byte>, fs: seq<Frame>, post: seq<Byte>, k: nat)
    requires Uniform(m, fs) && k < |fs|
    ensures ReadHeaderAt(m, pre + FramesBytes(fs) + post, Starts(pre, Encoded(fs))[k]).0 == Ok(Some(fs[k].header))
  {
    PieceAt(pre, Encoded(fs), post, k);
    ReadHeaderOf(m, pre + FramesBytes(fs) + post, Starts(pre, Encoded(fs))[k], fs[k]);
  }

  /** The `k`-th boundary lies `k` frames after `pre`. */
  lemma BoundaryAt(m: Meta, pre: seq<Byte>, fs: seq<Frame>, k: nat)
    requires Uniform(m, fs) && k <= |fs|
    ensures Starts(pre, Encoded(fs))[k] == |pre| + FrameLen(m) * k
  {
    var es := Encoded(fs)[..k];
    forall i | 0 <= i < |es| ensures |es[i]| == FrameLen(m) {
      assert es[i] == FrameBytes(fs[i]);
    }
    FlattenUniform(es, FrameLen(m));
  }

  /** Where `seek_frame(n)` puts the reader: `META_BYTES + frame_len * n`, computed in `usize`,
    * so `frame_len`'s addition, the product and the final addition each panic when they reach
    * 2^64. The seek itself then succeeds, even past the end of the file. */
  function FramePos(m: Meta, n: nat): (r: Result<nat, Error>)
    ensures r.Ok? <==> FrameLen(m) < U64_LIMIT && META_BYTES + FrameLen(m) * n < U64_LIMIT
    ensures r.Ok? ==> r.value == META_BYTES + FrameLen(m) * n
  {
    if FrameLen(m) >= U64_LIMIT then Result<nat, Error>.Err(Panic("attempt to add with overflow"))
    else if FrameLen(m) * n >= U64_LIMIT then Result<nat, Error>.Err(Panic("attempt to multiply with overflow"))
    else if META_BYTES + FrameLen(m) * n >= U64_LIMIT then Result<nat, Error>.Err(Panic("attempt to add with overflow"))
    else Ok(META_BYTES + FrameLen(m) * n)
  }

  /** `seek_entry`: an offset of another file is not found; otherwise the header of the frame
    * the offset names must carry the entry's sequence number. */
  function SeekEntryResult(m: Meta, file: seq<Byte>, o: EntryOffset): Result<Option<()>, Error> {
    if m.uuid != o.entryId.fileId then Ok(None)
    else
      var pos := FramePos(m, o.firstFrame);
      if pos.Err? then Err(pos.error)
      else
        var (r, _) := ReadHeaderAt(m, file, pos.value);
        if r.Err? then Err(r.error)
        else if r.value.None? then Ok(None)
        else if r.value.value.entrySeq != o.entryId.entrySeq then
          Err(EntryMismatch(o.entryId.entrySeq, r.value.value.entrySeq))
        else Ok(Some(()))
  }

  /** Seeking the offset `append` returned for an entry finds it; an offset naming the same
    * frame with another sequence number is reported as a mismatch. Only a frame position
    * beyond `usize` panics instead. */
  lemma SeekAppended(m: Meta, before: seq<Frame>, payload: seq<Byte>, entrySeq: U128, post: seq<Byte>, asked: U128)
    requires AsUsize(m.headerBytes) == HEADER_SIZE && 0 < AsUsize(m.payloadBytes) && FrameLen(m) < U64_LIMIT
    requires Uniform(m, before) && 0 < |payload| < U64_LIMIT
    ensures var file := MetaBytes(m) + FramesBytes(before) + FramesBytes(CreatedFrames(payload, entrySeq, AsUsize(m.payloadBytes))) + post;
      SeekEntryResult(m, file, NewEntryOffset(m.uuid, asked, |before|)) ==
        if FramePos(m, |before|).Err? then Err(FramePos(m, |before|).error)
        else if asked == entrySeq then Ok(Some(())) else Err(EntryMismatch(asked, entrySeq))
  {
    var created := CreatedFrames(payload, entrySeq, AsUsize(m.payloadBytes));
    var all := before + created;
    CreatedLaid(payload, entrySeq, m);
    FramesBytesAppend(before, created);
    assert all[|before|] == created[0];
    SeekLaid(m, all, post, |before|, asked);
    assert MetaBytes(m) + FramesBytes(all) + post ==
      MetaBytes(m) + FramesBytes(before) + FramesBytes(created) + post;
  }

  lemma SeekLaid(m: Meta, fs: seq<Frame>, post: seq<Byte>, k: nat, asked: U128)
    requires Uniform(m, fs) && k < |fs|
    ensures var e := fs[k].header.entrySeq;
      SeekEntryResult(m, MetaBytes(m) + FramesBytes(fs) + post, NewEntryOffset(m.uuid, asked, k)) ==
        if FramePos(m, k).Err? then Err(FramePos(m, k).error)
        else if asked == e then Ok(Some(())) else Err(EntryMismatch(asked, e))
  {
    ReadLaidHeader(m, MetaBytes(m), fs, post, k);
  }

  // ---- opening ----

  /** How many frames the bytes after the meta block hold. The program asserts that they are a
    * whole number of frames (after `frame_len`'s own overflow check, and dividing by zero when
    * a frame has no length); no bytes at all are no frames, without asking `frame_len`. */
  function FrameCount(m: Meta, existed: nat): (r: Result<nat, Error>)
    ensures r.Ok? <==> existed == 0 || (0 < FrameLen(m) < U64_LIMIT && existed % FrameLen(m) == 0)
    ensures r.Ok? ==> r.value * FrameLen(m) == existed
  {
    if existed == 0 then Ok(0)
    else if FrameLen(m) >= U64_LIMIT then Result<nat, Error>.Err(Panic("attempt to add with overflow"))
    else if FrameLen(m) == 0 then Result<nat, Error>.Err(Panic("attempt to calculate the remainder with a divisor of zero"))
    else if existed % FrameLen(m) != 0 then Result<nat, Error>.Err(Panic("frame bytes are not a whole number of frames"))
    else Ok(existed / FrameLen(m))
  }

  /** Where `open` reads the last header: it seeks `-1 * frame_len as i64` from the end, and
    * ignores a failed seek. `frame_len` panics from 2^64 on; the cast makes 2^63 the most
    * negative `i64`, whose negation panics, and longer frames negative, so the seek goes
    * `2^64 - frame_len` bytes past the end. Otherwise it goes one frame back from the end, or,
    * when the file is shorter than a frame, fails and leaves the reader where counting the
    * frames left it, at the end. */
  function LastHeaderPos(m: Meta, file: seq<Byte>): (r: Result<nat, Error>)
    ensures r.Ok? <==> FrameLen(m) < U64_LIMIT && FrameLen(m) != I64_LIMIT
    ensures r.Ok? && FrameLen(m) < I64_LIMIT ==> r.value <= |file| && (r.value + FrameLen(m) == |file| <==> FrameLen(m) <= |file|)
    ensures r.Ok? && FrameLen(m) > I64_LIMIT ==> r.value > |file|
  {
    if FrameLen(m) >= U64_LIMIT then Result<nat, Error>.Err(Panic("attempt to add with overflow"))
    else if FrameLen(m) == I64_LIMIT then Result<nat, Error>.Err(Panic("attempt to multiply with overflow"))
    else if FrameLen(m) > I64_LIMIT then Ok(|file| + (U64_LIMIT - FrameLen(m)))
    else if FrameLen(m) <= |file| then Ok(|file| - FrameLen(m))
    else Ok(|file|)
  }

  /** The sequence number `open` takes up: one past that of the last header, or 0 if there is
    * no header to read. */
  function NextEntrySeq(m: Meta, file: seq<Byte>): Result<U128, Error> {
    var pos := LastHeaderPos(m, file);
    if pos.Err? then Err(pos.error)
    else SeqAfter(ReadHeaderAt(m, file, pos.value).0)
  }

  /** The sequence number after the header just read. */
  function SeqAfter(r: Result<Option<Header>, Error>): Result<U128, Error> {
    if r.Err? then Err(r.error)
    else if r.value.None? then Ok(0)
    else if r.value.value.entrySeq + 1 >= U128_LIMIT then Err(Panic("attempt to add with overflow"))
    else Ok(r.value.value.entrySeq + 1)
  }

  /** What `open` learns from a file: its meta block, the frame count, the next sequence number. */
  datatype Opened = Opened(meta: Meta, frameOffset: nat, entryCurrentSeq: U128)

  function OpenFile(path: string, file: seq<Byte>): Result<Opened, Error> {
    if |file| < META_BYTES then Err(MetaMissing(path))
    else
      var m := MetaFromBytes(file[..META_BYTES]);
      if m.Err? then Err(m.error)
      else
        var count := FrameCount(m.value, |file| - META_BYTES);
        if count.Err? then Err(count.error)
        else
          var next := NextEntrySeq(m.value, file);
          if next.Err? then Err(next.error)
          else Ok(Opened(m.value, count.value, next.value))
  }

  /** Opening a file laid out as a meta block and whole frames recovers the meta block, counts
    * the frames and continues after the last frame's sequence number. With frames of 2^63
    * bytes the seek back to the last header panics; longer ones send it past the end, so the
    * sequence numbers start again from 0; with frames of 2^64 bytes or more, counting them
    * panics. */
  lemma OpenLaid(path: string, m: Meta, fs: seq<Frame>)
    requires IsCompatible(m.version) && Uniform(m, fs) && 0 < |fs|
    requires fs[|fs| - 1].header.entrySeq + 1 < U128_LIMIT
    ensures FrameLen(m) < I64_LIMIT ==>
      OpenFile(path, MetaBytes(m) + FramesBytes(fs)) == Ok(Opened(m, |fs|, fs[|fs| - 1].header.entrySeq + 1))
    ensures FrameLen(m) == I64_LIMIT ==>
      OpenFile(path, MetaBytes(m) + FramesBytes(fs)) == Err(Panic("attempt to multiply with overflow"))
    ensures I64_LIMIT < FrameLen(m) < U64_LIMIT ==>
      OpenFile(path, MetaBytes(m) + FramesBytes(fs)) == Ok(Opened(m, |fs|, 0))
    ensures FrameLen(m) >= U64_LIMIT ==>
      OpenFile(path, MetaBytes(m) + FramesBytes(fs)) == Err(Panic("attempt to add with overflow"))
  {
    OpenOf(path, m, FramesBytes(fs));
    FramesBytesLength(m, fs);
    if FrameLen(m) < I64_LIMIT {
      FrameCountLaid(m, fs);
      NextEntrySeqLaid(m, fs);
    } else if FrameLen(m) < U64_LIMIT {
      FrameCountLaid(m, fs);
    } else {
      assert |FramesBytes(fs)| >= FrameLen(m);
    }
  }

  /** Opening a file that starts with a readable meta block: counting the frames, then reading
    * the last header. */
  lemma OpenOf(path: string, m: Meta, body: seq<Byte>)
    requires IsCompatible(m.version)
    ensures var count, next := FrameCount(m, |body|), NextEntrySeq(m, MetaBytes(m) + body);
      OpenFile(path, MetaBytes(m) + body) ==
        if count.Err? then Err(count.error)
        else if next.Err? then Err(next.error)
        else Ok(Opened(m, count.value, next.value))
  {
    assert (MetaBytes(m) + body)[..META_BYTES] == MetaBytes(m);
    MetaRoundTrip(m);
  }

  lemma FrameCountLaid(m: Meta, fs: seq<Frame>)
    requires Uniform(m, fs) && 0 < |fs| && FrameLen(m) < U64_LIMIT
    ensures FrameCount(m, |FramesBytes(fs)|) == Ok(|fs|)
  {
    FramesBytesLength(m, fs);
    MulDivExact(|fs|, FrameLen(m));
  }

  lemma NextEntrySeqLaid(m: Meta, fs: seq<Frame>)
    requires Uniform(m, fs) && 0 < |fs| && FrameLen(m) < I64_LIMIT
    requires fs[|fs| - 1].header.entrySeq + 1 < U128_LIMIT
    ensures NextEntrySeq(m, MetaBytes(m) + FramesBytes(fs)) == Ok(fs[|fs| - 1].header.entrySeq + 1)
  {
    FramesBytesLength(m, fs);
    LessOne(|fs|, FrameLen(m));
    ReadLastHeader(m, MetaBytes(m), fs, LastHeaderPos(m, MetaBytes(m) + FramesBytes(fs)).value);
  }

  lemma LessOne(n: nat, l: nat)
    requires n > 0
    ensures n * l - l == l * (n - 1)
  {
  }

  /** The header of the last of the frames laid out after `pre`, which end the file. */
  lemma ReadLastHeader(m: Meta, pre: seq<Byte>, fs: seq<Frame>, pos: nat)
    requires Uniform(m, fs) && 0 < |fs| && pos == |pre| + FrameLen(m) * (|fs| - 1)
    ensures ReadHeaderAt(m, pre + FramesBytes(fs), pos).0 == Ok(Some(fs[|fs| - 1].header))
  {
    ReadLaidHeader(m, pre, fs, [], |fs| - 1);
    assert pre + FramesBytes(fs) + [] == pre + FramesBytes(fs);
  }

  /** A frame count read back from its byte count. */
  lemma MulDivExact(n: nat, l: nat)
    requires l > 0
    ensures (n * l) % l == 0 && (n * l) / l == n
  {
    DivModUnique(n * l, l, n, 0);
  }

  // ---- writing ----

  /** A writer left at the start of a file overwrites its meta block: the version read back is
    * the first three header fields of the first frame written (its length, the frame size and
    * the entry's sequence number), so once the first frame holds more than one byte, reopening
    * the file fails. */
  lemma ClobberedMeta(file: seq<Byte>, payload: seq<Byte>, entrySeq: U128, limit: nat)
    requires |file| >= META_BYTES && 0 < limit < U64_LIMIT && 0 < |payload| < U64_LIMIT
    requires Min(limit, |payload|) != 1
    ensures var after := Overwrite(file, 0, FramesBytes(CreatedFrames(payload, entrySeq, limit)));
      |after| >= META_BYTES &&
      MetaFromBytes(after[..META_BYTES]) ==
        Err(Incompatible(CURRENT_VERSION, Version(Min(limit, |payload|), limit, entrySeq)))
  {
    ClobberedHead(file, payload, entrySeq, limit);
    MetaOfHeader(Overwrite(file, 0, FramesBytes(CreatedFrames(payload, entrySeq, limit))),
      CreatedFrames(payload, entrySeq, limit)[0].header);
  }

  /** The first bytes of the file are then the first frame's header. */
  lemma ClobberedHead(file: seq<Byte>, payload: seq<Byte>, entrySeq: U128, limit: nat)
    requires |file| >= META_BYTES && 0 < limit < U64_LIMIT && 0 < |payload| < U64_LIMIT
    ensures var after := Overwrite(file, 0, FramesBytes(CreatedFrames(payload, entrySeq, limit)));
      var h := CreatedFrames(payload, entrySeq, limit)[0].header;
      |after| >= META_BYTES && after[..HEADER_SIZE] == HeaderBytes(h) &&
      h.length == Min(limit, |payload|) && h.size == limit && h.entrySeq == entrySeq
  {
    var fs := CreatedFrames(payload, entrySeq, limit);
    CeilDivStep(|payload|, limit);
    var es := Encoded(fs);
    FlattenSplit(es, 0);
    assert es[..0] == [];
  }

  /** A meta block read from bytes that start with a frame header holds that header's first
    * three fields as its version. */
  lemma MetaOfHeader(bs: seq<Byte>, h: Header)
    requires |bs| >= META_BYTES && bs[..HEADER_SIZE] == HeaderBytes(h)
    requires !IsCompatible(Version(h.length, h.size, h.entrySeq))
    ensures MetaFromBytes(bs[..META_BYTES]) ==
      Err(Incompatible(CURRENT_VERSION, Version(h.length, h.size, h.entrySeq)))
  {
    var head := [h.length, h.size, h.entrySeq];
    assert [h.length, h.size, h.entrySeq, h.frameSeq, h.total] == head + [h.frameSeq, h.total];
    FieldsConcat(head, [h.frameSeq, h.total]);
    var meta := bs[..META_BYTES];
    assert meta[..48] == Fields(head);
    FieldAtPrefix(meta, 48, 0);
    FieldAtPrefix(meta, 48, 1);
    FieldAtPrefix(meta, 48, 2);
    FieldAtFields(head, 0);
    FieldAtFields(head, 1);
    FieldAtFields(head, 2);
  }

  /** A meta block with no frames is laid out. */
  lemma LaidNothing(m: Meta)
    ensures MetaBytes(m) == MetaBytes(m) + FramesBytes([])
  {
    assert Encoded([]) == [];
  }

  /** Appending frames at the end of a laid-out file lays them out after the others. */
  lemma LaidAppend(m: Meta, written: seq<Frame>, frames: seq<Frame>)
    ensures Overwrite(MetaBytes(m) + FramesBytes(written), |MetaBytes(m) + FramesBytes(written)|, FramesBytes(frames))
         == MetaBytes(m) + FramesBytes(written + frames)
  {
    OverwriteEnd(MetaBytes(m) + FramesBytes(written), FramesBytes(frames));
    FramesBytesAppend(written, frames);
    SeqAssoc(MetaBytes(m), FramesBytes(written), FramesBytes(frames));
  }
}
