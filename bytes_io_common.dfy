/** The version stamp and entry addresses shared by the framed file format: a `Version` is
  * three little-endian `u128` numbers, and an entry is addressed by the file it lives in, its
  * sequence number and the index of its first frame. */
module BytesIoCommon {
  import opened LittleEndian
  import Decimal

  const VERSION_MAJOR: U128 := 1
  const VERSION_MINOR: U128 := 0
  const VERSION_PATCH: U128 := 0

  /** The in-memory size of three `u128` fields. */
  const VERSION_BYTES: nat := 48

  datatype Version = Version(major: U128, minor: U128, patch: U128)

  /** `Version::new()`: the version this code writes. */
  function NewVersion(): Version {
    Version(VERSION_MAJOR, VERSION_MINOR, VERSION_PATCH)
  }

  const CURRENT_VERSION: Version := NewVersion()

  /** Only the major number decides compatibility. */
  predicate IsCompatible(v: Version) {
    v.major == VERSION_MAJOR
  }

  /** `to_bytes`: major, minor and patch in that order. */
  function VersionBytes(v: Version): (r: seq<Byte>)
    ensures |r| == VERSION_BYTES
  {
    Fields([v.major, v.minor, v.patch])
  }

  /** `try_from`, for exactly `VERSION_BYTES` bytes (the length is asserted by the reader). */
  function VersionFromBytes(bs: seq<Byte>): Version
    requires |bs| == VERSION_BYTES
  {
    Version(FieldAt(bs, 0), FieldAt(bs, 1), FieldAt(bs, 2))
  }

  lemma VersionRoundTrip(v: Version)
    ensures VersionFromBytes(VersionBytes(v)) == v
  {
    var fs := [v.major, v.minor, v.patch];
    FieldAtFields(fs, 0);
    FieldAtFields(fs, 1);
    FieldAtFields(fs, 2);
  }

  lemma VersionBytesRoundTrip(bs: seq<Byte>)
    requires |bs| == VERSION_BYTES
    ensures VersionBytes(VersionFromBytes(bs)) == bs
  {
    FieldsOfThree(bs);
  }

  /** `Display`: `major.minor.patch` in decimal. */
  function VersionText(v: Version): string {
    Decimal.NatToDecimal(v.major) + "." + Decimal.NatToDecimal(v.minor) + "." + Decimal.NatToDecimal(v.patch)
  }

  /** The text of a version determines the version. */
  lemma VersionTextInjective(v: Version, w: Version)
    requires VersionText(v) == VersionText(w)
    ensures v == w
  {
    var a, b, c := Decimal.NatToDecimal(v.major), Decimal.NatToDecimal(v.minor), Decimal.NatToDecimal(v.patch);
    var a', b', c' := Decimal.NatToDecimal(w.major), Decimal.NatToDecimal(w.minor), Decimal.NatToDecimal(w.patch);
    assert VersionText(v) == a + ['.'] + (b + "." + c);
    assert VersionText(w) == a' + ['.'] + (b' + "." + c');
    Decimal.SplitAfterDigits(a, b + "." + c, a', b' + "." + c', '.');
    assert b + ['.'] + c == b' + ['.'] + c';
    Decimal.SplitAfterDigits(b, c, b', c', '.');
    Decimal.NatToDecimalInjective(v.major, w.major);
    Decimal.NatToDecimalInjective(v.minor, w.minor);
    Decimal.NatToDecimalInjective(v.patch, w.patch);
  }

  /** The current version is 1.0.0, is compatible, and a version is compatible with it exactly
    * when the major numbers agree, whatever the minor and patch numbers are. */
  lemma CurrentVersion()
    ensures CURRENT_VERSION == Version(1, 0, 0) && IsCompatible(CURRENT_VERSION)
    ensures VersionText(CURRENT_VERSION) == "1.0.0"
    ensures forall v: Version :: IsCompatible(v) <==> v.major == CURRENT_VERSION.major
  {
  }

  datatype EntryId = EntryId(fileId: U128, entrySeq: U128)

  /** Where an entry starts: the file, the entry's sequence number, the index of its first frame. */
  datatype EntryOffset = EntryOffset(entryId: EntryId, firstFrame: nat)

  /** `EntryOffset::new` keeps its three arguments as they are. */
  function NewEntryOffset(fileId: U128, entrySeq: U128, firstFrame: nat): (o: EntryOffset)
    ensures o.entryId.fileId == fileId && o.entryId.entrySeq == entrySeq && o.firstFrame == firstFrame
  {
    EntryOffset(EntryId(fileId, entrySeq), firstFrame)
  }
}
