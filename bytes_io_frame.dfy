/** Frames of the framed file format: an entry's payload is cut into fixed-size frames, each a
  * five-field header (`length`, `size`, `entry_seq`, `frame_seq`, `total`, little-endian `u128`)
  * followed by `size` payload bytes of which the first `length` are data and the rest zeros. */
module BytesIoFrame {
  import opened LittleEndian
  import opened Chunking

  /** The in-memory size of five `u128` fields. */
  const HEADER_SIZE: nat := 80

  datatype Header = Header(length: U128, size: U128, entrySeq: U128, frameSeq: U128, total: U128)

  /** The checks `Header::new` asserts. */
  predicate HeaderOk(h: Header) {
    h.length <= h.size && h.total > 0 && h.frameSeq < h.total
  }

  /** `Header::to_bytes`: the five fields in declaration order. */
  function HeaderBytes(h: Header): (r: seq<Byte>)
    ensures |r| == HEADER_SIZE
  {
    Fields([h.length, h.size, h.entrySeq, h.frameSeq, h.total])
  }

  /** `Header::try_from`, for exactly `HEADER_SIZE` bytes (the length is asserted). */
  function HeaderFromBytes(bs: seq<Byte>): Header
    requires |bs| == HEADER_SIZE
  {
    Header(FieldAt(bs, 0), FieldAt(bs, 1), FieldAt(bs, 2), FieldAt(bs, 3), FieldAt(bs, 4))
  }

  lemma HeaderRoundTrip(h: Header)
    ensures HeaderFromBytes(HeaderBytes(h)) == h
  {
    var fs := [h.length, h.size, h.entrySeq, h.frameSeq, h.total];
    FieldAtFields(fs, 0);
    FieldAtFields(fs, 1);
    FieldAtFields(fs, 2);
    FieldAtFields(fs, 3);
    FieldAtFields(fs, 4);
  }

  lemma HeaderBytesRoundTrip(bs: seq<Byte>)
    requires |bs| == HEADER_SIZE
    ensures HeaderBytes(HeaderFromBytes(bs)) == bs
  {
    FieldsOf(bs, [FieldAt(bs, 0), FieldAt(bs, 1), FieldAt(bs, 2), FieldAt(bs, 3), FieldAt(bs, 4)]);
  }

  datatype Frame = Frame(header: Header, payload: seq<Byte>)

  /** `Frame::new`: the data must be exactly `length as usize` bytes, no more than `size as usize`;
    * it is zero-padded to `size as usize`. */
  function NewFrame(header: Header, payload: seq<Byte>): (f: Frame)
    requires |payload| == AsUsize(header.length) <= AsUsize(header.size)
    ensures f.header == header && |f.payload| == AsUsize(header.size)
    ensures AsUsize(f.header.length) <= |f.payload| && Payload(f) == payload
  {
    Frame(header, Pad(payload, AsUsize(header.size), 0))
  }

  /** `Frame::payload`: the first `length as usize` bytes (a longer slice would panic). */
  function Payload(f: Frame): (r: seq<Byte>)
    requires AsUsize(f.header.length) <= |f.payload|
    ensures |r| == AsUsize(f.header.length) && r == f.payload[..|r|]
  {
    f.payload[..AsUsize(f.header.length)]
  }

  predicate IsFirst(f: Frame) {
    f.header.frameSeq == 0
  }

  /** `Frame::to_bytes`: the header, then the whole (padded) payload. */
  function FrameBytes(f: Frame): (r: seq<Byte>)
    ensures |r| == HEADER_SIZE + |f.payload|
  {
    HeaderBytes(f.header) + f.payload
  }

  /** `Frame::try_from`: the first `HEADER_SIZE` bytes are the header, all the rest is payload
    * (fewer than `HEADER_SIZE` bytes are refused by an assertion). */
  function FrameFromBytes(bs: seq<Byte>): Frame
    requires |bs| >= HEADER_SIZE
  {
    Frame(HeaderFromBytes(bs[..HEADER_SIZE]), bs[HEADER_SIZE..])
  }

  lemma FrameRoundTrip(f: Frame)
    ensures FrameFromBytes(FrameBytes(f)) == f
  {
    var bs := FrameBytes(f);
    assert bs[..HEADER_SIZE] == HeaderBytes(f.header);
    assert bs[HEADER_SIZE..] == f.payload;
    HeaderRoundTrip(f.header);
  }

  lemma FrameBytesRoundTrip(bs: seq<Byte>)
    requires |bs| >= HEADER_SIZE
    ensures FrameBytes(FrameFromBytes(bs)) == bs
  {
    HeaderBytesRoundTrip(bs[..HEADER_SIZE]);
    assert bs == bs[..HEADER_SIZE] + bs[HEADER_SIZE..];
  }

  // ---- splitting a payload into frames (`create`) ----

  /** Frame `i` of `create(payload, entry_seq, limit)`: the `i`-th piece of the payload. */
  function CreatedFrame(payload: seq<Byte>, entrySeq: U128, limit: nat, i: nat): Frame
    requires 0 < limit < U64_LIMIT && |payload| < U64_LIMIT && i < CeilDiv(|payload|, limit)
  {
    var n := CeilDiv(|payload|, limit);
    CeilDivBound(|payload|, limit);
    var piece := Chunks(payload, limit)[i];
    NewFrame(Header(|piece|, limit, entrySeq, i, n), piece)
  }

  /** All the frames of `create`, as a value. */
  function CreatedFrames(payload: seq<Byte>, entrySeq: U128, limit: nat): (fs: seq<Frame>)
    requires 0 < limit < U64_LIMIT && |payload| < U64_LIMIT
    ensures |fs| == CeilDiv(|payload|, limit)
  {
    seq(CeilDiv(|payload|, limit), i requires 0 <= i < CeilDiv(|payload|, limit) =>
      CreatedFrame(payload, entrySeq, limit, i))
  }

  /** `create(payload, entry_seq, limit)`: repeatedly splits `limit` bytes off the front of the
    * payload and wraps them in a frame numbered from 0, each header carrying the frame count. */
  method Create(payload: seq<Byte>, entrySeq: U128, limit: nat) returns (frames: seq<Frame>)
    requires 0 < limit < U64_LIMIT && |payload| < U64_LIMIT
    ensures frames == CreatedFrames(payload, entrySeq, limit)
  {
    var n := if |payload| % limit != 0 then |payload| / limit + 1 else |payload| / limit;
    assert n == CeilDiv(|payload|, limit);
    CeilDivBound(|payload|, limit);
    frames := [];
    var rest := payload;
    for i := 0 to n
      invariant |frames| == i
      invariant Chunks(payload, limit)[i..] == Chunks(rest, limit)
      invariant forall k :: 0 <= k < i ==> frames[k] == CreatedFrame(payload, entrySeq, limit, k)
    {
      ChunkAt(payload, limit, rest, i);
      var piece := if |rest| >= limit then rest[..limit] else rest;
      CreatedFrameOf(payload, entrySeq, limit, i, piece);
      frames := frames + [NewFrame(Header(|piece|, limit, entrySeq, i, n), piece)];
      rest := if |rest| >= limit then rest[limit..] else [];
    }
    AllCreated(payload, entrySeq, limit, frames);
  }

  lemma CreatedFrameOf(payload: seq<Byte>, entrySeq: U128, limit: nat, i: nat, piece: seq<Byte>)
    requires 0 < limit < U64_LIMIT && |payload| < U64_LIMIT && i < CeilDiv(|payload|, limit)
    requires piece == Chunks(payload, limit)[i]
    ensures CeilDiv(|payload|, limit) < U64_LIMIT
    ensures CreatedFrame(payload, entrySeq, limit, i) ==
      NewFrame(Header(|piece|, limit, entrySeq, i, CeilDiv(|payload|, limit)), piece)
  {
    CeilDivBound(|payload|, limit);
  }

  lemma AllCreated(payload: seq<Byte>, entrySeq: U128, limit: nat, frames: seq<Frame>)
    requires 0 < limit < U64_LIMIT && |payload| < U64_LIMIT && |frames| == CeilDiv(|payload|, limit)
    requires forall k :: 0 <= k < |frames| ==> frames[k] == CreatedFrame(payload, entrySeq, limit, k)
    ensures frames == CreatedFrames(payload, entrySeq, limit)
  {
  }

  /** The frames of `create` in order: numbered 0.. with the frame count as `total`, `size` the
    * limit, the given `entry_seq`; every frame but the last is full, and the last holds the
    * remainder of the division, or a full limit when it divides exactly. An empty payload has no
    * frames. */
  lemma CreatedHeaders(payload: seq<Byte>, entrySeq: U128, limit: nat, i: nat)
    requires 0 < limit < U64_LIMIT && |payload| < U64_LIMIT && i < CeilDiv(|payload|, limit)
    ensures var f := CreatedFrames(payload, entrySeq, limit)[i];
      var n := CeilDiv(|payload|, limit);
      f.header.frameSeq == i && f.header.total == n && f.header.size == limit &&
      f.header.entrySeq == entrySeq && |f.payload| == limit && HeaderOk(f.header) &&
      (IsFirst(f) <==> i == 0) &&
      f.header.length == (if i < n - 1 || |payload| % limit == 0 then limit else |payload| % limit)
  {
    ChunkLengths(payload, limit, i);
  }

  lemma NoFramesForNothing(entrySeq: U128, limit: nat)
    requires 0 < limit < U64_LIMIT
    ensures CreatedFrames([], entrySeq, limit) == []
  {
  }

  /** The payloads of a run of frames, joined in order (`read_entry`'s accumulation). */
  function JoinPayloads(fs: seq<Frame>): seq<Byte>
    requires forall k :: 0 <= k < |fs| ==> AsUsize(fs[k].header.length) <= |fs[k].payload|
  {
    if fs == [] then [] else JoinPayloads(fs[..|fs| - 1]) + Payload(fs[|fs| - 1])
  }

  /** Reassembly: joining the payloads of the frames of `create(p, ..)` gives back `p`. */
  lemma CreatedJoin(payload: seq<Byte>, entrySeq: U128, limit: nat)
    requires 0 < limit < U64_LIMIT && |payload| < U64_LIMIT
    ensures forall k :: 0 <= k < CeilDiv(|payload|, limit) ==>
      AsUsize(CreatedFrames(payload, entrySeq, limit)[k].header.length) <= |CreatedFrames(payload, entrySeq, limit)[k].payload|
    ensures JoinPayloads(CreatedFrames(payload, entrySeq, limit)) == payload
  {
    var fs, cs := CreatedFrames(payload, entrySeq, limit), Chunks(payload, limit);
    CreatedPieces(payload, entrySeq, limit);
    JoinPieces(fs, cs, |fs|);
    assert fs[..|fs|] == fs && cs[..|cs|] == cs;
    ChunksFlatten(payload, limit);
  }

  /** Frames carrying the pieces `cs` join, up to the `k`-th, to those pieces flattened. */
  lemma {:induction false} JoinPieces(fs: seq<Frame>, cs: seq<seq<Byte>>, k: nat)
    requires |fs| == |cs| && k <= |fs|
    requires forall j :: 0 <= j < |fs| ==> AsUsize(fs[j].header.length) <= |fs[j].payload| && Payload(fs[j]) == cs[j]
    ensures JoinPayloads(fs[..k]) == Flatten(cs[..k])
  {
    if k > 0 {
      JoinPieces(fs, cs, k - 1);
      JoinSnoc(fs, k - 1);
      PrefixSnoc(cs, k - 1);
      FlattenAppend(cs[..k - 1], cs[k - 1]);
    }
  }

  /** Each frame of `create` carries its piece of the payload. */
  lemma CreatedPieces(payload: seq<Byte>, entrySeq: U128, limit: nat)
    requires 0 < limit < U64_LIMIT && |payload| < U64_LIMIT
    ensures forall j :: 0 <= j < CeilDiv(|payload|, limit) ==>
      AsUsize(CreatedFrames(payload, entrySeq, limit)[j].header.length) <= |CreatedFrames(payload, entrySeq, limit)[j].payload| &&
      Payload(CreatedFrames(payload, entrySeq, limit)[j]) == Chunks(payload, limit)[j]
  {
  }

  lemma JoinSnoc(fs: seq<Frame>, k: nat)
    requires k < |fs| && forall j :: 0 <= j < |fs| ==> AsUsize(fs[j].header.length) <= |fs[j].payload|
    ensures JoinPayloads(fs[..k + 1]) == JoinPayloads(fs[..k]) + Payload(fs[k])
  {
    assert fs[..k + 1][..k] == fs[..k];
  }
}
