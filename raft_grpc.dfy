// Conversions between the consensus peer's own end points and log positions and their wire
// messages. On the wire, "no log position" is the pair (-1, -1).
module RaftGrpc {
  import opened Wrappers

  const I64_MIN: int := -0x8000_0000_0000_0000
  const I64_MAX: int := 0x7fff_ffff_ffff_ffff
  const U64: nat := 0x1_0000_0000_0000_0000

  type I64 = x: int | I64_MIN <= x <= I64_MAX
  type Usize = x: nat | x < U64
  type U16 = x: nat | x < 0x1_0000

  /** The peer's end point and log position. */
  datatype EndPoint = EndPoint(ip: string, port: U16)
  datatype LogSeq = LogSeq(term: Usize, index: Usize)

  /** The wire messages: every number is a signed 64-bit integer. */
  datatype WireEndPoint = WireEndPoint(ip: string, port: I64)
  datatype WireLogSeq = WireLogSeq(term: I64, index: I64)

  /** `as u16` from a signed 64-bit value: the low 16 bits. */
  function TruncU16(x: I64): (r: U16)
    ensures 0 <= x < 0x1_0000 ==> r == x
    ensures (r - x) % 0x1_0000 == 0
  {
    x % 0x1_0000
  }

  /** `as i64` from a 64-bit unsigned value: values from 2^63 up wrap to negatives. */
  function AsI64(x: Usize): (r: I64)
    ensures x <= I64_MAX ==> r == x
    ensures x > I64_MAX ==> r < 0 && r == x - U64
  {
    if x <= I64_MAX then x else x - U64
  }

  /** `crate_end_point_from`. */
  function EndPointFromWire(w: WireEndPoint): (e: EndPoint)
    ensures e.ip == w.ip
    ensures 0 <= w.port < 0x1_0000 ==> e.port == w.port
  {
    EndPoint(w.ip, TruncU16(w.port))
  }

  /** `grpc_end_point_from`. */
  function EndPointToWire(e: EndPoint): (w: WireEndPoint)
    ensures w.ip == e.ip && w.port == e.port
  {
    WireEndPoint(e.ip, e.port)
  }

  /** An end point survives the trip to the wire and back. */
  lemma EndPointRoundTrip(e: EndPoint)
    ensures EndPointFromWire(EndPointToWire(e)) == e
  {
  }

  /** A wire end point survives the trip to the peer and back exactly when its port is a valid
    * port number. */
  lemma WireEndPointRoundTrip(w: WireEndPoint)
    ensures EndPointToWire(EndPointFromWire(w)) == w <==> 0 <= w.port < 0x1_0000
  {
  }

  /** `crate_log_seq_from`: the product of term and index must be positive (the multiplication
    * itself panics when it leaves the 64-bit range); a positive term gives the position, a
    * negative one gives none. */
  function LogSeqFromWire(w: WireLogSeq): (r: Outcome<Option<LogSeq>>)
    ensures r.Panics? <==> !(0 < w.term * w.index <= I64_MAX)
    ensures r.Returns? ==> (r.value.Some? <==> w.term > 0 && w.index > 0)
    ensures r.Returns? && r.value.Some? ==> r.value.value == LogSeq(w.term, w.index)
    ensures r.Returns? && r.value.None? ==> w.term < 0 && w.index < 0
  {
    var product := w.term * w.index;
    if product < I64_MIN || product > I64_MAX then Panics("attempt to multiply with overflow")
    else if product <= 0 then Panics("assertion failed: grpc_log_seq.term * grpc_log_seq.index > 0")
    else if w.term > 0 then Returns(Some(LogSeq(w.term, w.index)))
    else Returns(None)
  }

  /** `grpc_log_seq_from`: no position goes out as (-1, -1), a position as its two numbers. */
  function LogSeqToWire(s: Option<LogSeq>): (w: WireLogSeq)
    ensures s.None? ==> w == WireLogSeq(-1, -1)
    ensures s.Some? ==> w.term == AsI64(s.value.term) && w.index == AsI64(s.value.index)
  {
    match s
    case None => WireLogSeq(-1, -1)
    case Some(seqNo) => WireLogSeq(AsI64(seqNo.term), AsI64(seqNo.index))
  }

  /** "No position" survives the trip. */
  lemma NoneRoundTrip()
    ensures LogSeqFromWire(LogSeqToWire(None)) == Returns(None)
  {
  }

  /** A position with a positive term and index survives the trip, as long as their product
    * stays in the signed 64-bit range. */
  lemma SomeRoundTrip(s: LogSeq)
    requires s.term >= 1 && s.index >= 1 && s.term * s.index <= I64_MAX
    ensures LogSeqFromWire(LogSeqToWire(Some(s))) == Returns(Some(s))
  {
    ProductBounds(s.term, s.index);
  }

  lemma ProductBounds(a: nat, b: nat)
    requires a >= 1 && b >= 1
    ensures a <= a * b && b <= a * b
  {
  }

  /** A position with term or index zero goes out without complaint but panics on the way back. */
  lemma ZeroPanics(s: LogSeq)
    requires s.term == 0 || s.index == 0
    ensures LogSeqFromWire(LogSeqToWire(Some(s))).Panics?
  {
  }
}
