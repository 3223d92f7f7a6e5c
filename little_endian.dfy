// Fixed-width little-endian integers, as written by `byteorder::WriteBytesExt::write_u128::<LittleEndian>`
// and read back by `ReadBytesExt::read_u128::<LittleEndian>`.
module LittleEndian {
  type Byte = x: int | 0 <= x < 256

  function Pow256(n: nat): (r: nat)
    ensures r > 0
  {
    if n == 0 then 1 else 256 * Pow256(n - 1)
  }

  /** 2^128, the number of values of a `u128`. */
  const U128_LIMIT: nat := 0x1_0000_0000_0000_0000_0000_0000_0000_0000
  /** 2^64, the number of values of a `u64` / `usize`. */
  const U64_LIMIT: nat := 0x1_0000_0000_0000_0000
  /** 2^63: an `i64` cast of a `usize` is negative from here on, and `isize::MAX` is one less. */
  const I64_LIMIT: nat := 0x8000_0000_0000_0000

  type U128 = x: int | 0 <= x < U128_LIMIT

  /** `as usize` on a wider count: its low 64 bits, which is the count itself when it fits. */
  function AsUsize(x: nat): (r: nat)
    ensures r < U64_LIMIT && (x < U64_LIMIT ==> r == x)
  {
    x % U64_LIMIT
  }

  lemma {:induction false} Pow256Sum(a: nat, b: nat)
    ensures Pow256(a + b) == Pow256(a) * Pow256(b)
  {
    if a > 0 {
      Pow256Sum(a - 1, b);
    }
  }

  lemma Pow256Of16()
    ensures Pow256(8) == U64_LIMIT
    ensures Pow256(16) == U128_LIMIT
  {
    assert Pow256(2) == 0x1_0000;
    Pow256Sum(2, 2);
    Pow256Sum(4, 4);
    Pow256Sum(8, 8);
  }

  /** The `n` low-order bytes of `x`, least significant first. */
  function Encode(x: nat, n: nat): (r: seq<Byte>)
    ensures |r| == n
  {
    if n == 0 then [] else [x % 256] + Encode(x / 256, n - 1)
  }

  /** The number whose little-endian bytes are `bs`. */
  function Decode(bs: seq<Byte>): (r: nat)
    ensures r < Pow256(|bs|)
  {
    if bs == [] then 0 else bs[0] + 256 * Decode(bs[1..])
  }

  lemma {:induction false} DecodeEncode(x: nat, n: nat)
    requires x < Pow256(n)
    ensures Decode(Encode(x, n)) == x
  {
    if n > 0 {
      DecodeEncode(x / 256, n - 1);
      assert Encode(x, n)[1..] == Encode(x / 256, n - 1);
    }
  }

  lemma {:induction false} EncodeDecode(bs: seq<Byte>)
    ensures Encode(Decode(bs), |bs|) == bs
  {
    if bs != [] {
      var d := Decode(bs[1..]);
      ByteSplit(bs[0], d);
      EncodeDecode(bs[1..]);
      assert Encode(Decode(bs), |bs|) == [bs[0]] + Encode(d, |bs| - 1);
      assert bs == [bs[0]] + bs[1..];
    }
  }

  /** A byte and the number above it are recovered by `% 256` and `/ 256`. */
  lemma ByteSplit(b: Byte, d: nat)
    ensures (b + 256 * d) % 256 == b && (b + 256 * d) / 256 == d
  {
  }

  /** `write_u128::<LittleEndian>`: 16 bytes. */
  function U128Bytes(x: U128): (r: seq<Byte>)
    ensures |r| == 16
  {
    Encode(x, 16)
  }

  /** `read_u128::<LittleEndian>` on exactly 16 bytes. */
  function BytesU128(bs: seq<Byte>): (x: U128)
    requires |bs| == 16
  {
    Pow256Of16();
    Decode(bs)
  }

  lemma U128RoundTrip(x: U128)
    ensures BytesU128(U128Bytes(x)) == x
  {
    Pow256Of16();
    DecodeEncode(x, 16);
  }

  lemma BytesRoundTrip(bs: seq<Byte>)
    requires |bs| == 16
    ensures U128Bytes(BytesU128(bs)) == bs
  {
    EncodeDecode(bs);
  }

  /** A run of `u128` fields written one after another. */
  function Fields(fs: seq<U128>): (r: seq<Byte>)
    ensures |r| == 16 * |fs|
  {
    if fs == [] then [] else U128Bytes(fs[0]) + Fields(fs[1..])
  }

  /** The `k`-th 16-byte field of `bs`. */
  function FieldAt(bs: seq<Byte>, k: nat): U128
    requires 16 * (k + 1) <= |bs|
  {
    BytesU128(bs[16 * k .. 16 * (k + 1)])
  }

  lemma {:induction false} FieldAtFields(fs: seq<U128>, k: nat)
    requires k < |fs|
    ensures FieldAt(Fields(fs), k) == fs[k]
  {
    if k == 0 {
      assert Fields(fs)[0..16] == U128Bytes(fs[0]);
      U128RoundTrip(fs[0]);
    } else {
      FieldAtFields(fs[1..], k - 1);
      assert Fields(fs)[16..] == Fields(fs[1..]);
      FieldShift(Fields(fs), k - 1);
    }
  }

  /** Field `k + 1` of a buffer is field `k` of the buffer past its first field. */
  lemma FieldShift(bs: seq<Byte>, k: nat)
    requires 16 * (k + 2) <= |bs|
    ensures bs[16 * (k + 1) .. 16 * (k + 2)] == bs[16..][16 * k .. 16 * (k + 1)]
  {
    var a, b := bs[16 * (k + 1) .. 16 * (k + 2)], bs[16..][16 * k .. 16 * (k + 1)];
    forall j | 0 <= j < 16 ensures a[j] == b[j] {
      assert a[j] == bs[16 * (k + 1) + j] && b[j] == bs[16 + 16 * k + j];
    }
  }

  /** The `n` fields read from a buffer of `16n` bytes. */
  function FieldsIn(bs: seq<Byte>, n: nat): (fs: seq<U128>)
    requires |bs| == 16 * n
    ensures |fs| == n && forall k :: 0 <= k < n ==> fs[k] == FieldAt(bs, k)
  {
    seq(n, k requires 0 <= k < n => FieldAt(bs, k))
  }

  /** Re-encoding the fields read from a buffer rebuilds that buffer. */
  lemma {:induction false} FieldsOfFieldAt(bs: seq<Byte>, n: nat)
    requires |bs| == 16 * n
    ensures Fields(FieldsIn(bs, n)) == bs
  {
    if n > 0 {
      FieldsOfFieldAt(bs[16..], n - 1);
      FieldsInTail(bs, n);
      BytesRoundTrip(bs[0..16]);
      assert bs == bs[0..16] + bs[16..];
    }
  }

  /** Past the first field, the fields of a buffer are those of the rest of it. */
  lemma FieldsInTail(bs: seq<Byte>, n: nat)
    requires |bs| == 16 * n && n > 0
    ensures FieldsIn(bs, n)[0] == BytesU128(bs[0..16])
    ensures FieldsIn(bs, n)[1..] == FieldsIn(bs[16..], n - 1)
  {
    forall k | 0 <= k < n - 1 ensures FieldsIn(bs, n)[1..][k] == FieldsIn(bs[16..], n - 1)[k] {
      FieldShift(bs, k);
    }
  }

  /** Fields that agree with the ones read from a buffer encode back to that buffer. */
  lemma FieldsOf(bs: seq<Byte>, fs: seq<U128>)
    requires |bs| == 16 * |fs| && forall k :: 0 <= k < |fs| ==> fs[k] == FieldAt(bs, k)
    ensures Fields(fs) == bs
  {
    FieldsOfFieldAt(bs, |fs|);
    assert fs == FieldsIn(bs, |fs|);
  }

  lemma {:induction false} FieldsConcat(a: seq<U128>, b: seq<U128>)
    ensures Fields(a + b) == Fields(a) + Fields(b)
  {
    if a == [] {
      assert a + b == b;
    } else {
      assert (a + b)[0] == a[0] && (a + b)[1..] == a[1..] + b;
      FieldsConcat(a[1..], b);
    }
  }

  /** Three fields decode and re-encode to the same bytes. */
  lemma FieldsOfThree(bs: seq<Byte>)
    requires |bs| == 48
    ensures Fields([FieldAt(bs, 0), FieldAt(bs, 1), FieldAt(bs, 2)]) == bs
  {
    FieldsOf(bs, [FieldAt(bs, 0), FieldAt(bs, 1), FieldAt(bs, 2)]);
  }

  /** A field lies in any prefix that contains it. */
  lemma FieldAtPrefix(bs: seq<Byte>, n: nat, k: nat)
    requires 16 * (k + 1) <= n <= |bs|
    ensures FieldAt(bs[..n], k) == FieldAt(bs, k)
  {
    assert bs[..n][16 * k .. 16 * (k + 1)] == bs[16 * k .. 16 * (k + 1)];
  }
}
