/** The segment file: a 32-byte `FileHeader` (segment header size, payload size per segment)
  * followed by fixed-length segments, each payload stored as the run of segments `create` cut it
  * into. The file lives in a `FileSystem`; a `SegmentFile` reads at its own position and always
  * writes at the end of the file. */
module SegFile {
  import opened Wrappers
  import opened LittleEndian
  import opened Chunking
  import opened FileImage
  import opened SegmentCodec

  /** The in-memory size of two `u128` fields. */
  const FILE_HEADER_SIZE: nat := 32

  datatype FileHeader = FileHeader(headerBytes: U128, payloadBytes: U128)

  /** `FileHeader::new(payload_bytes)`: segment headers of `SEGMENT_HEADER_SIZE` bytes. */
  function NewFileHeader(payloadBytes: U128): (h: FileHeader)
    ensures h.headerBytes == SEGMENT_HEADER_SIZE && h.payloadBytes == payloadBytes
  {
    FileHeader(SEGMENT_HEADER_SIZE, payloadBytes)
  }

  /** `FileHeader::to_vec_u8`: the two fields in declaration order. */
  function FileHeaderBytes(h: FileHeader): (r: seq<Byte>)
    ensures |r| == FILE_HEADER_SIZE
  {
    Fields([h.headerBytes, h.payloadBytes])
  }

  /** `FileHeader::try_from`, for exactly `FILE_HEADER_SIZE` bytes (the length is asserted). */
  function FileHeaderFromBytes(bs: seq<Byte>): FileHeader
    requires |bs| == FILE_HEADER_SIZE
  {
    FileHeader(FieldAt(bs, 0), FieldAt(bs, 1))
  }

  lemma FileHeaderRoundTrip(h: FileHeader)
    ensures FileHeaderFromBytes(FileHeaderBytes(h)) == h
  {
    FieldAtFields([h.headerBytes, h.payloadBytes], 0);
    FieldAtFields([h.headerBytes, h.payloadBytes], 1);
  }

  lemma FileHeaderBytesRoundTrip(bs: seq<Byte>)
    requires |bs| == FILE_HEADER_SIZE
    ensures FileHeaderBytes(FileHeaderFromBytes(bs)) == bs
  {
    FieldsOf(bs, [FieldAt(bs, 0), FieldAt(bs, 1)]);
  }

  /** The errors the segment file reports; `Panic` stands for a panic of the program. */
  datatype Error =
    | FileExisted(path: string)
    | FileHeaderMissing(path: string)
    | ReadFromMiddle(partialSeq: U128, total: U128)
    | Panic(reason: string)

  /** The `start..end` range of segment numbers `append` returns. */
  datatype Range = Range(start: nat, end: nat)

  // ---- reading ----

  /** `next_segment` at `pos`: the next `segment_bytes` bytes decoded as a segment, or `None`
    * when fewer remain. */
  function NextSegmentAt(segmentBytes: nat, file: seq<Byte>, pos: nat): (r: (Result<Option<Segment>, Error>, nat))
    ensures r.0.Ok? && r.0.value.Some? ==>
      r.1 == pos + segmentBytes <= |file| && segmentBytes >= SEGMENT_HEADER_SIZE
  {
    var (buf, next) := ReadInto(file, pos, segmentBytes);
    if buf.None? then (Ok(None), next)
    else if |buf.value| < SEGMENT_HEADER_SIZE then (Err(Panic("segment shorter than its header")), next)
    else (Ok(Some(SegmentFromBytes(buf.value))), next)
  }

  /** The loop of `get_payload`: segments are read and their payloads appended until one is the
    * last; running out of segments first panics ("incomplete write"). */
  function GetPayloadRest(segmentBytes: nat, file: seq<Byte>, pos: nat, acc: seq<Byte>): (Result<Option<seq<Byte>>, Error>, nat)
    decreases if pos <= |file| then |file| - pos else 0
  {
    var (r, next) := NextSegmentAt(segmentBytes, file, pos);
    if r.Err? then (Err(r.error), next)
    else if r.value.None? then (Err(Panic("incomplete write")), next)
    else
      var s := r.value.value;
      if AsUsize(s.header.length) > |s.payload| then (Err(Panic("segment length beyond its payload")), next)
      else
        var last := IsLast(s);
        if last.Panics? then (Err(Panic(last.reason)), next)
        else if last.value then (Ok(Some(acc + Payload(s))), next)
        else GetPayloadRest(segmentBytes, file, next, acc + Payload(s))
  }

  /** `get_payload` at `pos`: `None` at the end of the file; `ReadFromMiddle` when the segment
    * there does not start a payload; otherwise the payloads of its segments through the last. */
  function GetPayloadAt(segmentBytes: nat, file: seq<Byte>, pos: nat): (Result<Option<seq<Byte>>, Error>, nat) {
    var (r, next) := NextSegmentAt(segmentBytes, file, pos);
    if r.Err? then (Err(r.error), next)
    else if r.value.None? then (Ok(None), next)
    else
      var s := r.value.value;
      if !IsFirst(s) then (Err(ReadFromMiddle(s.header.partialSeq, s.header.total)), next)
      else
        var last := IsLast(s);
        if last.Panics? then (Err(Panic(last.reason)), next)
        else if AsUsize(s.header.length) > |s.payload| then (Err(Panic("segment length beyond its payload")), next)
        else if last.value then (Ok(Some(Payload(s))), next)
        else GetPayloadRest(segmentBytes, file, next, Payload(s))
  }

  /** A first segment that is not also the last hands over to the loop. */
  lemma GetPayloadStart(segmentBytes: nat, file: seq<Byte>, pos: nat, s: Segment, next: nat)
    requires NextSegmentAt(segmentBytes, file, pos) == (Ok(Some(s)), next)
    requires IsFirst(s) && IsLast(s) == Returns(false) && AsUsize(s.header.length) <= |s.payload|
    ensures GetPayloadAt(segmentBytes, file, pos) == GetPayloadRest(segmentBytes, file, next, Payload(s))
  {
  }

  /** A segment that is not the last moves the loop on by one segment. */
  lemma GetPayloadStep(segmentBytes: nat, file: seq<Byte>, pos: nat, acc: seq<Byte>, s: Segment, next: nat)
    requires NextSegmentAt(segmentBytes, file, pos) == (Ok(Some(s)), next)
    requires IsLast(s) == Returns(false) && AsUsize(s.header.length) <= |s.payload|
    ensures GetPayloadRest(segmentBytes, file, pos, acc) == GetPayloadRest(segmentBytes, file, next, acc + Payload(s))
  {
  }

  // ---- opening ----

  /** `segment_bytes` of `create`: the payload size cast to `usize` (keeping its low 64 bits)
    * plus the segment header size, which must not overflow a `usize`. */
  function CreatedSegmentBytes(payloadBytes: U128): (r: Result<nat, Error>)
    ensures r.Ok? <==> AsUsize(payloadBytes) + SEGMENT_HEADER_SIZE < U64_LIMIT
    ensures r.Ok? && payloadBytes < U64_LIMIT ==> r.value == payloadBytes + SEGMENT_HEADER_SIZE
  {
    var low := AsUsize(payloadBytes);
    if low + SEGMENT_HEADER_SIZE >= U64_LIMIT then Err(Panic("attempt to add with overflow"))
    else Ok(low + SEGMENT_HEADER_SIZE)
  }

  /** How many segments the bytes after the file header hold. The program asserts that they are
    * a whole number of segments (and divides by zero when a segment has no length). */
  function SegmentCount(segmentBytes: nat, body: nat): (r: Result<nat, Error>)
    ensures r.Ok? ==> r.value * segmentBytes == body
    ensures r.Ok? <==> body == 0 || (segmentBytes > 0 && body % segmentBytes == 0)
  {
    if body == 0 then Ok(0)
    else if segmentBytes == 0 then Result<nat, Error>.Err(Panic("attempt to calculate the remainder with a divisor of zero"))
    else if body % segmentBytes != 0 then Result<nat, Error>.Err(Panic("segment bytes are not a whole number of segments"))
    else Ok(body / segmentBytes)
  }

  /** What `open` learns from a file: its header, the segment length, the segment count. */
  datatype Opened = Opened(header: FileHeader, segmentBytes: nat, segmentSeq: nat)

  /** `open` on the file's bytes: the header must be there; the segment length is the sum of the
    * two header fields (a `u128` addition that panics on overflow) cast to `usize`. */
  function OpenFile(path: string, file: seq<Byte>): Result<Opened, Error> {
    if |file| < FILE_HEADER_SIZE then Err(FileHeaderMissing(path))
    else OpenHeader(FileHeaderFromBytes(file[..FILE_HEADER_SIZE]), |file| - FILE_HEADER_SIZE)
  }

  /** What `open` makes of a decoded header and `body` bytes after it. */
  function OpenHeader(h: FileHeader, body: nat): Result<Opened, Error> {
    if h.headerBytes + h.payloadBytes >= U128_LIMIT then Err(Panic("attempt to add with overflow"))
    else
      var segmentBytes := AsUsize(h.headerBytes + h.payloadBytes);
      var count := SegmentCount(segmentBytes, body);
      if count.Err? then Err(count.error)
      else Ok(Opened(h, segmentBytes, count.value))
  }

  // ---- the layout written by `append` ----

  /** Each segment's bytes. */
  function Encoded(ss: seq<Segment>): (es: seq<seq<Byte>>)
    ensures |es| == |ss|
  {
    seq(|ss|, i requires 0 <= i < |ss| => SegmentBytes(ss[i]))
  }

  /** Segments written back to back. */
  function SegmentsBytes(ss: seq<Segment>): seq<Byte> {
    Flatten(Encoded(ss))
  }

  lemma SegmentsBytesAppend(a: seq<Segment>, b: seq<Segment>)
    ensures SegmentsBytes(a + b) == SegmentsBytes(a) + SegmentsBytes(b)
  {
    assert Encoded(a + b) == Encoded(a) + Encoded(b);
    FlattenConcat(Encoded(a), Encoded(b));
  }

  lemma SegmentsBytesSnoc(ss: seq<Segment>, i: nat)
    requires i < |ss|
    ensures SegmentsBytes(ss[..i + 1]) == SegmentsBytes(ss[..i]) + SegmentBytes(ss[i])
  {
    assert Encoded(ss[..i + 1]) == Encoded(ss[..i]) + [SegmentBytes(ss[i])];
    FlattenAppend(Encoded(ss[..i]), SegmentBytes(ss[i]));
  }

  /** Every segment carries `payloadBytes` payload bytes. */
  predicate Uniform(payloadBytes: nat, ss: seq<Segment>) {
    forall i :: 0 <= i < |ss| ==> |ss[i].payload| == payloadBytes
  }

  /** The `k`-th start lies `k` segments after `pre`. */
  lemma StartAt(payloadBytes: nat, pre: seq<Byte>, ss: seq<Segment>, k: nat)
    requires Uniform(payloadBytes, ss) && k <= |ss|
    ensures Starts(pre, Encoded(ss))[k] == |pre| + (SEGMENT_HEADER_SIZE + payloadBytes) * k
  {
    var es := Encoded(ss)[..k];
    forall i | 0 <= i < |es| ensures |es[i]| == SEGMENT_HEADER_SIZE + payloadBytes {
      assert es[i] == SegmentBytes(ss[i]);
    }
    FlattenUniform(es, SEGMENT_HEADER_SIZE + payloadBytes);
  }

  /** In a file holding `pre`, then the segments `ss`, then anything, the segment read at the
    * `k`-th start is `ss[k]`, and the reader moves on to the next start. */
  lemma ReadLaidSegment(payloadBytes: nat, pre: seq<Byte>, ss: seq<Segment>, post: seq<Byte>, k: nat)
    requires Uniform(payloadBytes, ss) && k < |ss|
    ensures var ps := Starts(pre, Encoded(ss));
      NextSegmentAt(SEGMENT_HEADER_SIZE + payloadBytes, pre + SegmentsBytes(ss) + post, ps[k]) ==
        (Ok(Some(ss[k])), ps[k + 1])
  {
    PieceAt(pre, Encoded(ss), post, k);
    NextSegmentOf(SEGMENT_HEADER_SIZE + payloadBytes, pre + SegmentsBytes(ss) + post,
      Starts(pre, Encoded(ss))[k], ss[k]);
  }

  /** The encoding of a segment reads back as that segment. */
  lemma NextSegmentOf(segmentBytes: nat, file: seq<Byte>, p: nat, s: Segment)
    requires segmentBytes == |SegmentBytes(s)|
    requires p + segmentBytes <= |file| && file[p..p + segmentBytes] == SegmentBytes(s)
    ensures NextSegmentAt(segmentBytes, file, p) == (Ok(Some(s)), p + segmentBytes)
  {
    SegmentRoundTrip(s);
  }

  /** The facts about a run of segments that `get_payload` relies on: read one after another,
    * each passes its checks, and only the last is last. */
  predicate ReadableRun(segmentBytes: nat, file: seq<Byte>, ps: seq<nat>, ss: seq<Segment>) {
    |ps| == |ss| + 1 &&
    (forall j :: 0 <= j < |ss| ==> NextSegmentAt(segmentBytes, file, ps[j]) == (Ok(Some(ss[j])), ps[j + 1])) &&
    (forall j :: 0 <= j < |ss| ==> AsUsize(ss[j].header.length) <= |ss[j].payload|) &&
    (forall j :: 0 <= j < |ss| ==> IsLast(ss[j]) == Returns(j == |ss| - 1))
  }

  /** The loop of `get_payload` along a readable run, from its `k`-th segment. */
  lemma {:induction false} GetPayloadRestAlong(segmentBytes: nat, file: seq<Byte>, ps: seq<nat>, ss: seq<Segment>, k: nat)
    requires ReadableRun(segmentBytes, file, ps, ss) && k < |ss|
    ensures GetPayloadRest(segmentBytes, file, ps[k], Flatten(Payloads(ss)[..k])) ==
      (Ok(Some(Flatten(Payloads(ss)))), ps[|ss|])
    decreases |ss| - k
  {
    var p := Payloads(ss);
    FlattenSplit(p, k);
    assert NextSegmentAt(segmentBytes, file, ps[k]) == (Ok(Some(ss[k])), ps[k + 1]);
    assert IsLast(ss[k]) == Returns(k == |ss| - 1);
    if k == |ss| - 1 {
      assert p[..k + 1] == p;
    } else {
      GetPayloadRestAlong(segmentBytes, file, ps, ss, k + 1);
    }
  }

  /** `get_payload` along a readable run that starts with a first segment, from the run's
    * first boundary `start` to its last `end`. */
  lemma GetPayloadAlong(segmentBytes: nat, file: seq<Byte>, ps: seq<nat>, ss: seq<Segment>, start: nat, end: nat)
    requires ReadableRun(segmentBytes, file, ps, ss) && 0 < |ss| && IsFirst(ss[0])
    requires ps[0] == start && ps[|ss|] == end
    ensures GetPayloadAt(segmentBytes, file, start) == (Ok(Some(Flatten(Payloads(ss)))), end)
  {
    var p := Payloads(ss);
    FlattenOne(p);
    assert NextSegmentAt(segmentBytes, file, ps[0]) == (Ok(Some(ss[0])), ps[1]);
    assert IsLast(ss[0]) == Returns(0 == |ss| - 1);
    if |ss| == 1 {
      assert p[..1] == p;
    } else {
      GetPayloadStart(segmentBytes, file, start, ss[0], ps[1]);
      GetPayloadRestAlong(segmentBytes, file, ps, ss, 1);
    }
  }

  lemma FlattenOne(p: seq<seq<Byte>>)
    requires 0 < |p|
    ensures Flatten(p[..1]) == p[0]
  {
    assert p[..1] == [p[0]];
    FlattenCons(p[0], []);
    assert [p[0]] + [] == [p[0]];
  }

  /** The facts about `create`'s segments that reading relies on. */
  lemma CreatedReadable(payload: seq<Byte>, payloadBytes: nat)
    requires 0 < payloadBytes < U64_LIMIT && 0 < |payload| < U64_LIMIT
    ensures var ss := CreatedSegments(payload, payloadBytes);
      Uniform(payloadBytes, ss) && 0 < |ss| && IsFirst(ss[0]) &&
      (forall j :: 0 <= j < |ss| ==> AsUsize(ss[j].header.length) <= |ss[j].payload|) &&
      (forall j :: 0 <= j < |ss| ==> IsLast(ss[j]) == Returns(j == |ss| - 1))
  {
    var ss := CreatedSegments(payload, payloadBytes);
    CeilDivStep(|payload|, payloadBytes);
    forall j | 0 <= j < |ss|
      ensures |ss[j].payload| == payloadBytes && AsUsize(ss[j].header.length) <= |ss[j].payload|
      ensures IsLast(ss[j]) == Returns(j == |ss| - 1)
    {
      CreatedSegmentHeaders(payload, payloadBytes, j);
    }
    CreatedSegmentHeaders(payload, payloadBytes, 0);
  }

  /** Segments laid out one after another, each passing `get_payload`'s checks with only the
    * last one last, form a readable run. */
  lemma LaidRun(payloadBytes: nat, pre: seq<Byte>, ss: seq<Segment>, post: seq<Byte>)
    requires Uniform(payloadBytes, ss)
    requires forall j :: 0 <= j < |ss| ==> AsUsize(ss[j].header.length) <= |ss[j].payload|
    requires forall j :: 0 <= j < |ss| ==> IsLast(ss[j]) == Returns(j == |ss| - 1)
    ensures ReadableRun(SEGMENT_HEADER_SIZE + payloadBytes, pre + SegmentsBytes(ss) + post, Starts(pre, Encoded(ss)), ss)
  {
    forall j | 0 <= j < |ss|
      ensures NextSegmentAt(SEGMENT_HEADER_SIZE + payloadBytes, pre + SegmentsBytes(ss) + post, Starts(pre, Encoded(ss))[j])
        == (Ok(Some(ss[j])), Starts(pre, Encoded(ss))[j + 1])
    {
      ReadLaidSegment(payloadBytes, pre, ss, post, j);
    }
  }

  /** The segments `create` made, laid out after `pre`, form a readable run that starts with a
    * first segment. */
  lemma CreatedRun(payloadBytes: nat, pre: seq<Byte>, payload: seq<Byte>, post: seq<Byte>)
    requires 0 < payloadBytes < U64_LIMIT && 0 < |payload| < U64_LIMIT
    ensures var ss := CreatedSegments(payload, payloadBytes);
      ReadableRun(SEGMENT_HEADER_SIZE + payloadBytes, pre + SegmentsBytes(ss) + post, Starts(pre, Encoded(ss)), ss) &&
      0 < |ss| && IsFirst(ss[0])
  {
    CreatedReadable(payload, payloadBytes);
    LaidRun(payloadBytes, pre, CreatedSegments(payload, payloadBytes), post);
  }

  lemma SegmentsBytesLength(payloadBytes: nat, ss: seq<Segment>)
    requires Uniform(payloadBytes, ss)
    ensures |SegmentsBytes(ss)| == (SEGMENT_HEADER_SIZE + payloadBytes) * |ss|
  {
    StartAt(payloadBytes, [], ss, |ss|);
    assert Encoded(ss)[..|ss|] == Encoded(ss);
  }

  /** Reading back a payload: after the file header and any earlier segments, the segments
    * `create` made from a non-empty payload read back as that payload, and the reader ends
    * where the next payload's segments start. */
  lemma ReadBackPayload(h: FileHeader, before: seq<Segment>, payload: seq<Byte>, post: seq<Byte>)
    requires 0 < h.payloadBytes < U64_LIMIT && Uniform(h.payloadBytes, before) && 0 < |payload| < U64_LIMIT
    ensures var ss := CreatedSegments(payload, h.payloadBytes);
      var segmentBytes := SEGMENT_HEADER_SIZE + h.payloadBytes;
      var file := FileHeaderBytes(h) + SegmentsBytes(before) + SegmentsBytes(ss) + post;
      GetPayloadAt(segmentBytes, file, FILE_HEADER_SIZE + segmentBytes * |before|) ==
        (Ok(Some(payload)), FILE_HEADER_SIZE + segmentBytes * (|before| + |ss|))
  {
    SegmentsBytesLength(h.payloadBytes, before);
    Distributes(FILE_HEADER_SIZE, SEGMENT_HEADER_SIZE + h.payloadBytes, |before|, |CreatedSegments(payload, h.payloadBytes)|);
    CreatedGets(h.payloadBytes, FileHeaderBytes(h) + SegmentsBytes(before), payload, post,
                FILE_HEADER_SIZE + (SEGMENT_HEADER_SIZE + h.payloadBytes) * |before|,
                FILE_HEADER_SIZE + (SEGMENT_HEADER_SIZE + h.payloadBytes) * (|before| + |CreatedSegments(payload, h.payloadBytes)|));
  }

  lemma Distributes(base: nat, size: nat, n: nat, m: nat)
    ensures base + size * (n + m) == base + size * n + size * m
  {
  }

  /** The segments `create` made, laid out after `pre`, read back as the payload from the end
    * of `pre` (`start`) to the end of the segments (`end`). */
  lemma CreatedGets(payloadBytes: nat, pre: seq<Byte>, payload: seq<Byte>, post: seq<Byte>, start: nat, end: nat)
    requires 0 < payloadBytes < U64_LIMIT && 0 < |payload| < U64_LIMIT
    requires start == |pre| && end == |pre| + (SEGMENT_HEADER_SIZE + payloadBytes) * |CreatedSegments(payload, payloadBytes)|
    ensures GetPayloadAt(SEGMENT_HEADER_SIZE + payloadBytes, pre + SegmentsBytes(CreatedSegments(payload, payloadBytes)) + post, start) ==
      (Ok(Some(payload)), end)
  {
    var ss := CreatedSegments(payload, payloadBytes);
    CreatedRun(payloadBytes, pre, payload, post);
    CreatedJoin(payload, payloadBytes);
    CreatedUniform(payload, payloadBytes);
    StartAt(payloadBytes, pre, ss, 0);
    StartAt(payloadBytes, pre, ss, |ss|);
    GetPayloadAlong(SEGMENT_HEADER_SIZE + payloadBytes, pre + SegmentsBytes(ss) + post, Starts(pre, Encoded(ss)), ss, start, end);
  }

  /** Opening a file laid out as a file header and whole segments recovers the header and
    * counts the segments. */
  lemma OpenLaid(path: string, h: FileHeader, ss: seq<Segment>)
    requires h.headerBytes == SEGMENT_HEADER_SIZE && h.payloadBytes + SEGMENT_HEADER_SIZE < U64_LIMIT
    requires Uniform(h.payloadBytes, ss)
    ensures OpenFile(path, FileHeaderBytes(h) + SegmentsBytes(ss)) ==
      Ok(Opened(h, SEGMENT_HEADER_SIZE + h.payloadBytes, |ss|))
  {
    OpenFileOf(path, h, SegmentsBytes(ss));
    OpenHeaderLaid(h, ss);
  }

  lemma OpenHeaderLaid(h: FileHeader, ss: seq<Segment>)
    requires h.headerBytes == SEGMENT_HEADER_SIZE && h.payloadBytes + SEGMENT_HEADER_SIZE < U64_LIMIT
    requires Uniform(h.payloadBytes, ss)
    ensures OpenHeader(h, |SegmentsBytes(ss)|) == Ok(Opened(h, SEGMENT_HEADER_SIZE + h.payloadBytes, |ss|))
  {
    SegmentCountLaid(h.payloadBytes, ss);
    OpenHeaderOf(h, |SegmentsBytes(ss)|, |ss|);
  }

  /** A header whose sizes fit opens with their sum as the segment length. */
  lemma OpenHeaderOf(h: FileHeader, body: nat, count: nat)
    requires h.headerBytes == SEGMENT_HEADER_SIZE && h.payloadBytes + SEGMENT_HEADER_SIZE < U64_LIMIT
    requires SegmentCount(SEGMENT_HEADER_SIZE + h.payloadBytes, body) == Ok(count)
    ensures OpenHeader(h, body) == Ok(Opened(h, SEGMENT_HEADER_SIZE + h.payloadBytes, count))
  {
    assert AsUsize(h.headerBytes + h.payloadBytes) == SEGMENT_HEADER_SIZE + h.payloadBytes;
  }

  /** A buffer that starts with an encoded header opens as that header over the rest. */
  lemma OpenFileOf(path: string, h: FileHeader, rest: seq<Byte>)
    ensures OpenFile(path, FileHeaderBytes(h) + rest) == OpenHeader(h, |rest|)
  {
    assert (FileHeaderBytes(h) + rest)[..FILE_HEADER_SIZE] == FileHeaderBytes(h);
    FileHeaderRoundTrip(h);
  }

  lemma SegmentCountLaid(payloadBytes: nat, ss: seq<Segment>)
    requires Uniform(payloadBytes, ss)
    ensures SegmentCount(SEGMENT_HEADER_SIZE + payloadBytes, |SegmentsBytes(ss)|) == Ok(|ss|)
  {
    SegmentsBytesLength(payloadBytes, ss);
    var segmentBytes := SEGMENT_HEADER_SIZE + payloadBytes;
    if |ss| > 0 {
      DivModUnique(segmentBytes * |ss|, segmentBytes, |ss|, 0);
    }
  }

  // ---- the segment file handle ----

  class SegmentFile {
    const node: Inode
    const header: FileHeader
    const segmentBytes: nat
    /** The number of segments the file holds, as this handle counts them. */
    var segmentSeq: nat
    var readPos: nat
    /** The segments this handle has written since the file was created. */
    ghost var written: seq<Segment>

    /** The file's current contents. */
    function File(): seq<Byte>
      reads node
    {
      node.data
    }

    /** The file is the file header followed by exactly the segments `written`, each as long as
      * the header announces. */
    ghost predicate Laid()
      reads this, node
    {
      LaidOut(File(), header, segmentBytes, written, segmentSeq)
    }

    /** A handle whose reader stands after the file header. */
    constructor (node: Inode, header: FileHeader, segmentBytes: nat, segmentSeq: nat)
      ensures this.node == node && this.header == header && this.segmentBytes == segmentBytes
      ensures this.segmentSeq == segmentSeq && readPos == FILE_HEADER_SIZE && written == []
    {
      this.node := node;
      this.header := header;
      this.segmentBytes := segmentBytes;
      this.segmentSeq := segmentSeq;
      readPos := FILE_HEADER_SIZE;
      written := [];
    }

    /** `next_segment`. */
    method NextSegment() returns (r: Result<Option<Segment>, Error>)
      modifies this`readPos
      ensures (r, readPos) == NextSegmentAt(segmentBytes, File(), old(readPos))
    {
      var (buf, next) := ReadInto(File(), readPos, segmentBytes);
      readPos := next;
      if buf.None? {
        return Ok(None);
      }
      if |buf.value| < SEGMENT_HEADER_SIZE {
        return Err(Panic("segment shorter than its header"));
      }
      return Ok(Some(SegmentFromBytes(buf.value)));
    }

    /** `last_segment_seq`: the number of the last segment, if there is one. */
    function LastSegmentSeq(): (r: Option<nat>)
      reads this
      ensures r.None? <==> segmentSeq == 0
      ensures r.Some? ==> r.value + 1 == segmentSeq
    {
      if segmentSeq == 0 then None else Some(segmentSeq - 1)
    }

    /** `write_segments`: each segment is written at the end of the file and counted. */
    method WriteSegments(segments: seq<Segment>)
      modifies node, this`segmentSeq, this`written
      ensures File() == old(File()) + SegmentsBytes(segments)
      ensures segmentSeq == old(segmentSeq) + |segments| && written == old(written) + segments
    {
      for i := 0 to |segments|
        invariant File() == old(File()) + SegmentsBytes(segments[..i])
        invariant segmentSeq == old(segmentSeq) + i && written == old(written) + segments[..i]
      {
        SegmentsBytesSnoc(segments, i);
        node.data := node.data + SegmentBytes(segments[i]);
        segmentSeq := segmentSeq + 1;
        written := written + [segments[i]];
      }
      assert segments[..|segments|] == segments;
    }

    /** `seek_segment(n)`: the reader moves to where segment `n` starts, computed in `usize`, so
      * the product and the addition each panic when they reach 2^64. Seeking past the end of a
      * file succeeds, so otherwise the position is always reported. */
    method SeekSegment(n: nat) returns (r: Result<Option<nat>, Error>)
      modifies this`readPos
      ensures segmentBytes * n >= U64_LIMIT ==>
        r == Err(Panic("attempt to multiply with overflow")) && readPos == old(readPos)
      ensures segmentBytes * n < U64_LIMIT <= FILE_HEADER_SIZE + segmentBytes * n ==>
        r == Err(Panic("attempt to add with overflow")) && readPos == old(readPos)
      ensures FILE_HEADER_SIZE + segmentBytes * n < U64_LIMIT ==>
        readPos == FILE_HEADER_SIZE + segmentBytes * n && r == Ok(Some(readPos))
    {
      var product := segmentBytes * n;
      if product >= U64_LIMIT {
        return Err(Panic("attempt to multiply with overflow"));
      }
      if FILE_HEADER_SIZE + product >= U64_LIMIT {
        return Err(Panic("attempt to add with overflow"));
      }
      var bytes := FILE_HEADER_SIZE + product;
      readPos := bytes;
      return Ok(Some(bytes));
    }

    /** `get_payload`: the payload whose segments start at the reader. It first reserves
      * `payload_bytes as usize` bytes, which panics beyond `isize::MAX` before anything is read. */
    method GetPayload() returns (r: Result<Option<seq<Byte>>, Error>)
      modifies this`readPos
      ensures AsUsize(header.payloadBytes) >= I64_LIMIT ==> r == Err(Panic("capacity overflow")) && readPos == old(readPos)
      ensures AsUsize(header.payloadBytes) < I64_LIMIT ==> (r, readPos) == GetPayloadAt(segmentBytes, File(), old(readPos))
    {
      if AsUsize(header.payloadBytes) >= I64_LIMIT {
        return Err(Panic("capacity overflow"));
      }
      var first := NextSegment();
      if first.Err? {
        return Err(first.error);
      }
      if first.value.None? {
        return Ok(None);
      }
      var s := first.value.value;
      if !IsFirst(s) {
        return Err(ReadFromMiddle(s.header.partialSeq, s.header.total));
      }
      var last := IsLast(s);
      if last.Panics? {
        return Err(Panic(last.reason));
      }
      if AsUsize(s.header.length) > |s.payload| {
        return Err(Panic("segment length beyond its payload"));
      }
      var bytes := Payload(s);
      if last.value {
        return Ok(Some(bytes));
      }
      GetPayloadStart(segmentBytes, File(), old(readPos), s, readPos);
      while true
        invariant readPos <= |File()|
        invariant GetPayloadRest(segmentBytes, File(), readPos, bytes) == GetPayloadAt(segmentBytes, File(), old(readPos))
        decreases |File()| - readPos
      {
        ghost var pos := readPos;
        var next := NextSegment();
        if next.Err? {
          return Err(next.error);
        }
        if next.value.None? {
          return Err(Panic("incomplete write"));
        }
        var g := next.value.value;
        if AsUsize(g.header.length) > |g.payload| {
          return Err(Panic("segment length beyond its payload"));
        }
        var isLast := IsLast(g);
        if isLast.Panics? {
          return Err(Panic(isLast.reason));
        }
        if isLast.value {
          return Ok(Some(bytes + Payload(g)));
        }
        GetPayloadStep(segmentBytes, File(), pos, bytes, g, readPos);
        bytes := bytes + Payload(g);
      }
    }

    /** `append`: the payload is cut into segments of the header's payload size (cast to
      * `usize`; a zero size divides by zero), which are written at the end; the result is the
      * range of their numbers. */
    method Append(payload: seq<Byte>) returns (r: Result<Range, Error>)
      requires |payload| < U64_LIMIT
      modifies node, this`segmentSeq, this`written
      ensures AsUsize(header.payloadBytes) == 0 ==>
        r == Err(Panic("attempt to calculate the remainder with a divisor of zero")) && unchanged(node, this)
      ensures AsUsize(header.payloadBytes) != 0 ==>
        var segments := CreatedSegments(payload, AsUsize(header.payloadBytes));
        r == Ok(Range(old(segmentSeq), old(segmentSeq) + |segments|)) &&
        segmentSeq == old(segmentSeq) + |segments| && written == old(written) + segments &&
        File() == old(File()) + SegmentsBytes(segments)
      ensures old(Laid()) && 0 < header.payloadBytes < U64_LIMIT ==> Laid()
    {
      ghost var wasLaid, before, file := Laid(), written, File();
      var limit := AsUsize(header.payloadBytes);
      if limit == 0 {
        return Err(Panic("attempt to calculate the remainder with a divisor of zero"));
      }
      var segments := SegmentCodec.Create(payload, limit);
      CreatedUniform(payload, limit);
      var start := segmentSeq;
      WriteSegments(segments);
      if wasLaid && limit == header.payloadBytes {
        LaidAppend(file, header, segmentBytes, before, start, segments);
      }
      return Ok(Range(start, segmentSeq));
    }
  }

  /** A file laid out as the file header followed by exactly the segments `written`, each as
    * long as the header announces, with `count` counting them. */
  ghost predicate LaidOut(file: seq<Byte>, h: FileHeader, segmentBytes: nat, written: seq<Segment>, count: nat) {
    file == FileHeaderBytes(h) + SegmentsBytes(written) &&
    h.headerBytes == SEGMENT_HEADER_SIZE && segmentBytes == SEGMENT_HEADER_SIZE + h.payloadBytes &&
    Uniform(h.payloadBytes, written) && count == |written|
  }

  /** Appending a uniform run of segments to a laid-out file keeps it laid out. */
  lemma LaidAppend(file: seq<Byte>, h: FileHeader, segmentBytes: nat, before: seq<Segment>, count: nat,
                   segments: seq<Segment>)
    requires LaidOut(file, h, segmentBytes, before, count) && Uniform(h.payloadBytes, segments)
    ensures LaidOut(file + SegmentsBytes(segments), h, segmentBytes, before + segments, count + |segments|)
  {
    var all := before + segments;
    SegmentsBytesAppend(before, segments);
    SeqAssoc(FileHeaderBytes(h), SegmentsBytes(before), SegmentsBytes(segments));
    forall i | 0 <= i < |all| ensures |all[i].payload| == h.payloadBytes {
      if i < |before| {
        assert all[i] == before[i];
      } else {
        assert all[i] == segments[i - |before|];
      }
    }
  }

  lemma CreatedUniform(payload: seq<Byte>, payloadBytes: nat)
    requires 0 < payloadBytes < U64_LIMIT && |payload| < U64_LIMIT
    ensures Uniform(payloadBytes, CreatedSegments(payload, payloadBytes))
  {
    if payload != [] {
      CreatedReadable(payload, payloadBytes);
    }
  }

  /** `SegmentFile::create`: refuses an existing path; otherwise creates the empty file, works
    * out the segment length (an overflow panics, leaving the empty file behind), writes the
    * file header and leaves the reader after it. */
  method Create(fs: FileSystem, path: string, payloadBytes: U128) returns (r: Result<SegmentFile, Error>)
    modifies fs
    ensures path in old(fs.files) ==> r == Err(FileExisted(path)) && fs.files == old(fs.files)
    ensures path !in old(fs.files) ==>
      path in fs.files && fs.files == old(fs.files)[path := fs.files[path]] && fresh(fs.files[path])
    ensures path !in old(fs.files) && CreatedSegmentBytes(payloadBytes).Err? ==>
      r == Err(CreatedSegmentBytes(payloadBytes).error) && fs.files[path].data == []
    ensures path !in old(fs.files) && CreatedSegmentBytes(payloadBytes).Ok? ==> r.Ok?
    ensures r.Ok? ==>
      var f := r.value;
      fresh(f) && path !in old(fs.files) && f.node == fs.files[path] &&
      f.header == NewFileHeader(payloadBytes) && f.segmentBytes == CreatedSegmentBytes(payloadBytes).value &&
      f.segmentSeq == 0 && f.readPos == FILE_HEADER_SIZE && f.File() == FileHeaderBytes(f.header) &&
      (payloadBytes < U64_LIMIT ==> f.Laid())
    ensures r.Err? ==> r.error.FileExisted? || r.error.Panic?
  {
    if path in fs.files {
      return Err(FileExisted(path));
    }
    var node := new Inode([]);
    fs.files := fs.files[path := node];
    var segmentBytes := CreatedSegmentBytes(payloadBytes);
    if segmentBytes.Err? {
      return Err(segmentBytes.error);
    }
    var header := NewFileHeader(payloadBytes);
    var f := new SegmentFile(node, header, segmentBytes.value, 0);
    node.data := FileHeaderBytes(header);
    assert Encoded([]) == [];
    assert f.File() == FileHeaderBytes(header) + SegmentsBytes([]);
    return Ok(f);
  }

  /** `SegmentFile::open`: the writer creates a missing file, which then has no header; otherwise
    * the file header is read, the segments are counted, and the reader stands after the header. */
  method Open(fs: FileSystem, path: string) returns (r: Result<SegmentFile, Error>)
    modifies fs
    ensures path in old(fs.files) ==> fs.files == old(fs.files)
    ensures path !in old(fs.files) ==>
      path in fs.files && fs.files == old(fs.files)[path := fs.files[path]] &&
      fresh(fs.files[path]) && fs.files[path].data == [] && r == Err(FileHeaderMissing(path))
    ensures path in old(fs.files) ==>
      var o := OpenFile(path, old(fs.files[path].data));
      (o.Err? ==> r == Err(o.error)) &&
      (o.Ok? ==>
        r.Ok? && fresh(r.value) && r.value.node == fs.files[path] &&
        r.value.header == o.value.header && r.value.segmentBytes == o.value.segmentBytes &&
        r.value.segmentSeq == o.value.segmentSeq && r.value.readPos == FILE_HEADER_SIZE)
  {
    if path !in fs.files {
      var node := new Inode([]);
      fs.files := fs.files[path := node];
      return Err(FileHeaderMissing(path));
    }
    var node := fs.files[path];
    var o := OpenFile(path, node.data);
    if o.Err? {
      return Err(o.error);
    }
    var f := new SegmentFile(node, o.value.header, o.value.segmentBytes, o.value.segmentSeq);
    return Ok(f);
  }
}
