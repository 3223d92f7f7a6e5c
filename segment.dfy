/** Segments of a segment file: a payload is cut into segments of a fixed size, each a five-field
  * header (`length`, `size`, `entry_seq`, `partial_seq`, `total`, little-endian `u128`) followed
  * by `size` payload bytes of which the first `length` are data and the rest zeros. */
module SegmentCodec {
  import opened Wrappers
  import opened LittleEndian
  import opened Chunking

  /** The in-memory size of five `u128` fields. */
  const SEGMENT_HEADER_SIZE: nat := 80

  datatype SegmentHeader = SegmentHeader(length: U128, size: U128, entrySeq: U128, partialSeq: U128, total: U128)

  /** `SegmentHeader::new`: the entry sequence number is always 0. */
  function NewSegmentHeader(length: U128, size: U128, partialSeq: U128, total: U128): (h: SegmentHeader)
    ensures h.entrySeq == 0
    ensures h.length == length && h.size == size && h.partialSeq == partialSeq && h.total == total
  {
    SegmentHeader(length, size, 0, partialSeq, total)
  }

  /** `SegmentHeader::to_bytes`: the five fields in declaration order. */
  function SegmentHeaderBytes(h: SegmentHeader): (r: seq<Byte>)
    ensures |r| == SEGMENT_HEADER_SIZE
  {
    Fields([h.length, h.size, h.entrySeq, h.partialSeq, h.total])
  }

  /** `SegmentHeader::try_from`, for exactly `SEGMENT_HEADER_SIZE` bytes (the length is asserted). */
  function SegmentHeaderFromBytes(bs: seq<Byte>): SegmentHeader
    requires |bs| == SEGMENT_HEADER_SIZE
  {
    SegmentHeader(FieldAt(bs, 0), FieldAt(bs, 1), FieldAt(bs, 2), FieldAt(bs, 3), FieldAt(bs, 4))
  }

  lemma SegmentHeaderRoundTrip(h: SegmentHeader)
    ensures SegmentHeaderFromBytes(SegmentHeaderBytes(h)) == h
  {
    var fs := [h.length, h.size, h.entrySeq, h.partialSeq, h.total];
    FieldAtFields(fs, 0);
    FieldAtFields(fs, 1);
    FieldAtFields(fs, 2);
    FieldAtFields(fs, 3);
    FieldAtFields(fs, 4);
  }

  lemma SegmentHeaderBytesRoundTrip(bs: seq<Byte>)
    requires |bs| == SEGMENT_HEADER_SIZE
    ensures SegmentHeaderBytes(SegmentHeaderFromBytes(bs)) == bs
  {
    FieldsOf(bs, [FieldAt(bs, 0), FieldAt(bs, 1), FieldAt(bs, 2), FieldAt(bs, 3), FieldAt(bs, 4)]);
  }

  datatype Segment = Segment(header: SegmentHeader, payload: seq<Byte>)

  /** `Segment::new`: the data must be exactly `length as usize` bytes, no more than
    * `size as usize`; it is zero-padded to `size as usize`. */
  function NewSegment(header: SegmentHeader, payload: seq<Byte>): (s: Segment)
    requires |payload| == AsUsize(header.length) <= AsUsize(header.size)
    ensures s.header == header && |s.payload| == AsUsize(header.size)
    ensures AsUsize(s.header.length) <= |s.payload| && Payload(s) == payload
    ensures forall i :: |payload| <= i < |s.payload| ==> s.payload[i] == 0
  {
    Segment(header, Pad(payload, AsUsize(header.size), 0))
  }

  /** `Segment::payload`: the first `length as usize` bytes (a longer slice would panic). */
  function Payload(s: Segment): (r: seq<Byte>)
    requires AsUsize(s.header.length) <= |s.payload|
    ensures |r| == AsUsize(s.header.length) && r == s.payload[..|r|]
  {
    s.payload[..AsUsize(s.header.length)]
  }

  predicate IsFirst(s: Segment) {
    s.header.partialSeq == 0
  }

  /** `Segment::is_last`: `total - 1` underflows, and panics, when `total` is 0. */
  function IsLast(s: Segment): (r: Outcome<bool>)
    ensures r.Panics? <==> s.header.total == 0
    ensures r.Returns? ==> (r.value <==> s.header.partialSeq + 1 == s.header.total)
  {
    if s.header.total == 0 then Panics("attempt to subtract with overflow")
    else Returns(s.header.partialSeq == s.header.total - 1)
  }

  /** `Segment::to_bytes`: the header, then the whole (padded) payload. */
  function SegmentBytes(s: Segment): (r: seq<Byte>)
    ensures |r| == SEGMENT_HEADER_SIZE + |s.payload|
  {
    SegmentHeaderBytes(s.header) + s.payload
  }

  /** `Segment::try_from`: the first `SEGMENT_HEADER_SIZE` bytes are the header, all the rest is
    * payload (fewer than `SEGMENT_HEADER_SIZE` bytes are refused by an assertion). */
  function SegmentFromBytes(bs: seq<Byte>): Segment
    requires |bs| >= SEGMENT_HEADER_SIZE
  {
    Segment(SegmentHeaderFromBytes(bs[..SEGMENT_HEADER_SIZE]), bs[SEGMENT_HEADER_SIZE..])
  }

  lemma SegmentRoundTrip(s: Segment)
    ensures SegmentFromBytes(SegmentBytes(s)) == s
  {
    var bs := SegmentBytes(s);
    assert bs[..SEGMENT_HEADER_SIZE] == SegmentHeaderBytes(s.header);
    assert bs[SEGMENT_HEADER_SIZE..] == s.payload;
    SegmentHeaderRoundTrip(s.header);
  }

  lemma SegmentBytesRoundTrip(bs: seq<Byte>)
    requires |bs| >= SEGMENT_HEADER_SIZE
    ensures SegmentBytes(SegmentFromBytes(bs)) == bs
  {
    SegmentHeaderBytesRoundTrip(bs[..SEGMENT_HEADER_SIZE]);
    assert bs == bs[..SEGMENT_HEADER_SIZE] + bs[SEGMENT_HEADER_SIZE..];
  }

  // ---- splitting a payload into segments (`create`) ----

  /** Segment `i` of `create(payload, limit)`: the `i`-th piece of the payload. */
  function CreatedSegment(payload: seq<Byte>, limit: nat, i: nat): Segment
    requires 0 < limit < U64_LIMIT && |payload| < U64_LIMIT && i < CeilDiv(|payload|, limit)
  {
    var n := CeilDiv(|payload|, limit);
    CeilDivBound(|payload|, limit);
    var piece := Chunks(payload, limit)[i];
    NewSegment(NewSegmentHeader(|piece|, limit, i, n), piece)
  }

  /** All the segments of `create`, as a value. */
  function CreatedSegments(payload: seq<Byte>, limit: nat): (ss: seq<Segment>)
    requires 0 < limit < U64_LIMIT && |payload| < U64_LIMIT
    ensures |ss| == CeilDiv(|payload|, limit)
  {
    seq(CeilDiv(|payload|, limit), i requires 0 <= i < CeilDiv(|payload|, limit) =>
      CreatedSegment(payload, limit, i))
  }

  /** `create(payload, partial_limits)`: repeatedly splits `limit` bytes off the front of the
    * payload and wraps them in a segment numbered from 0, each header carrying the count. */
  method Create(payload: seq<Byte>, limit: nat) returns (segments: seq<Segment>)
    requires 0 < limit < U64_LIMIT && |payload| < U64_LIMIT
    ensures segments == CreatedSegments(payload, limit)
  {
    var n := CeilDiv(|payload|, limit);
    ghost var pieces := Chunks(payload, limit);
    CeilDivBound(|payload|, limit);
    segments := [];
    var rest := payload;
    for i := 0 to n
      invariant |segments| == i
      invariant pieces[i..] == Chunks(rest, limit)
      invariant forall k :: 0 <= k < i ==> segments[k] == CreatedSegment(payload, limit, k)
    {
      var next := if |rest| >= limit then rest[limit..] else [];
      var piece := if |rest| >= limit then rest[..limit] else rest;
      CreateStep(payload, limit, n, i, rest);
      segments := segments + [NewSegment(NewSegmentHeader(|piece|, limit, i, n), piece)];
      rest := next;
    }
    CreatedAll(payload, limit, segments);
  }

  /** One turn of `create`'s loop: the piece it splits off makes segment `i`, and what is left
    * holds the pieces after it. */
  lemma CreateStep(payload: seq<Byte>, limit: nat, n: nat, i: nat, rest: seq<Byte>)
    requires 0 < limit < U64_LIMIT && |payload| < U64_LIMIT
    requires n == CeilDiv(|payload|, limit) <= |payload| && i < n
    requires Chunks(payload, limit)[i..] == Chunks(rest, limit)
    ensures var piece := if |rest| >= limit then rest[..limit] else rest;
      var next := if |rest| >= limit then rest[limit..] else [];
      |piece| <= limit &&
      NewSegment(NewSegmentHeader(|piece|, limit, i, n), piece) == CreatedSegment(payload, limit, i) &&
      Chunks(payload, limit)[i + 1..] == Chunks(next, limit)
  {
    var pieces := Chunks(payload, limit);
    assert pieces[i] == pieces[i..][0];
    assert pieces[i + 1..] == pieces[i..][1..];
    ChunksFront(rest, limit);
  }

  /** The first piece `create` splits off, and what is left for the others. */
  lemma ChunksFront(rest: seq<Byte>, limit: nat)
    requires 0 < limit && Chunks(rest, limit) != []
    ensures var piece := if |rest| >= limit then rest[..limit] else rest;
      var next := if |rest| >= limit then rest[limit..] else [];
      Chunks(rest, limit)[0] == piece && Chunks(rest, limit)[1..] == Chunks(next, limit)
  {
  }

  /** Segments that agree one by one with those of `create` are all of them. */
  lemma CreatedAll(payload: seq<Byte>, limit: nat, segments: seq<Segment>)
    requires 0 < limit < U64_LIMIT && |payload| < U64_LIMIT && |segments| == CeilDiv(|payload|, limit)
    requires forall k :: 0 <= k < |segments| ==> segments[k] == CreatedSegment(payload, limit, k)
    ensures segments == CreatedSegments(payload, limit)
  {
  }

  /** The segments of `create` in order: numbered 0.. with the count as `total`, `size` the
    * limit, `entry_seq` 0, the payload padded to the limit; the first is first and the last is
    * last; every segment but the last is full, and the last holds the remainder of the division,
    * or a full limit when it divides exactly. */
  lemma CreatedSegmentHeaders(payload: seq<Byte>, limit: nat, i: nat)
    requires 0 < limit < U64_LIMIT && |payload| < U64_LIMIT && i < CeilDiv(|payload|, limit)
    ensures var s := CreatedSegments(payload, limit)[i];
      var n := CeilDiv(|payload|, limit);
      s.header.partialSeq == i && s.header.total == n && s.header.size == limit &&
      s.header.entrySeq == 0 && |s.payload| == limit &&
      (IsFirst(s) <==> i == 0) && (IsLast(s) == Returns(i == n - 1)) &&
      s.header.length == (if i < n - 1 || |payload| % limit == 0 then limit else |payload| % limit)
  {
    ChunkLengths(payload, limit, i);
  }

  lemma NoSegmentsForNothing(limit: nat)
    requires 0 < limit < U64_LIMIT
    ensures CreatedSegments([], limit) == []
  {
  }

  /** The payloads of a run of segments. */
  function Payloads(ss: seq<Segment>): (ps: seq<seq<Byte>>)
    requires forall k :: 0 <= k < |ss| ==> AsUsize(ss[k].header.length) <= |ss[k].payload|
    ensures |ps| == |ss|
  {
    seq(|ss|, k requires 0 <= k < |ss| => Payload(ss[k]))
  }

  /** Reassembly: joining the payloads of the segments of `create(p, ..)` gives back `p`. */
  lemma CreatedJoin(payload: seq<Byte>, limit: nat)
    requires 0 < limit < U64_LIMIT && |payload| < U64_LIMIT
    ensures var ss := CreatedSegments(payload, limit);
      (forall k :: 0 <= k < |ss| ==> AsUsize(ss[k].header.length) <= |ss[k].payload|) &&
      Flatten(Payloads(ss)) == payload
  {
    var ss := CreatedSegments(payload, limit);
    assert Payloads(ss) == Chunks(payload, limit);
    ChunksFlatten(payload, limit);
  }
}
