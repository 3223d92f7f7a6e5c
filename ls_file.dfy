/** The log-structured file of the LSM tree: a file of log entries (a file header, index
  * snapshots and data records) written through a segment file, with an in-memory index from
  * record keys to entry positions. The segment file is seen as the sequence of entries it holds
  * and a read cursor counted in entries; entries are values (their serialised form is left out). */
module LsFile {
  import opened Wrappers
  import opened LittleEndian
  import opened Decimal

  /** `RangeInclusive<usize>` of the file ids a log file covers. */
  datatype Ids = Ids(start: nat, end: nat)

  datatype LogFileHeader = LogFileHeader(version: nat, ids: Ids, compacted: bool, entryCount: nat)

  datatype LogEntry =
    | FileHeader(header: LogFileHeader)
    | Index(count: nat, index: map<string, nat>)
    | Data(key: string, data: seq<Byte>)

  datatype LogEntryPointer = LogEntryPointer(fileId: nat, entryKey: string)

  datatype Error =
    | HeaderMissing(path: string)
    | EmptyFile(path: string)
    | IncompleteWrite(path: string)
    | FileExisted(path: string)
    | Panic(reason: string)

  datatype Ordering = Less | Equal | Greater

  /** `LogFileHeader::new`: version 0. */
  function NewLogFileHeader(ids: Ids, compacted: bool, entryCount: nat): (h: LogFileHeader)
    ensures h.version == 0 && h.ids == ids && h.compacted == compacted && h.entryCount == entryCount
  {
    LogFileHeader(0, ids, compacted, entryCount)
  }

  // ---- file names ----

  /** The suffix of a plain or a compacted log file. */
  function Suffix(compacted: bool): string {
    if compacted then ".compacted.wal" else ".wal"
  }

  /** The file name for a range of ids: `<end>` for a single id, `<start>-<end>` otherwise. */
  function WalName(ids: Ids, compacted: bool): string {
    NatToDecimal(Lead(ids)) + NameTail(ids, compacted)
  }

  /** The number a file name starts with. */
  function Lead(ids: Ids): nat {
    if ids.start == ids.end then ids.end else ids.start
  }

  /** What follows the leading number: the end id for a range, then the suffix. */
  function NameTail(ids: Ids, compacted: bool): (t: string)
    ensures t != [] && !IsDigit(t[0])
  {
    if ids.start == ids.end then Suffix(compacted) else "-" + (NatToDecimal(ids.end) + Suffix(compacted))
  }

  /** A digit run followed by a non-digit splits off in one way only. */
  lemma SplitDigits(d1: string, r1: string, d2: string, r2: string)
    requires AllDigits(d1) && AllDigits(d2) && r1 != [] && r2 != [] && !IsDigit(r1[0]) && !IsDigit(r2[0])
    requires d1 + r1 == d2 + r2
    ensures d1 == d2 && r1 == r2
  {
    DigitRunLength(d1, r1[0], r1[1..]);
    DigitRunLength(d2, r2[0], r2[1..]);
    assert d1 + r1 == d1 + [r1[0]] + r1[1..];
    assert d2 + r2 == d2 + [r2[0]] + r2[1..];
    var s := d1 + r1;
    assert d1 == s[..|d1|] && d2 == s[..|d2|];
  }

  lemma SuffixInjective(ca: bool, cb: bool)
    requires Suffix(ca) == Suffix(cb)
    ensures ca == cb
  {
    assert |Suffix(ca)| == |Suffix(cb)|;
  }

  lemma NameTailInjective(a: Ids, ca: bool, b: Ids, cb: bool)
    requires NameTail(a, ca) == NameTail(b, cb)
    ensures (a.start == a.end <==> b.start == b.end) && ca == cb
    ensures a.start != a.end ==> a.end == b.end
  {
    var ta, tb := NameTail(a, ca), NameTail(b, cb);
    // A range's tail starts with '-', a single id's tail with the suffix's '.'.
    assert ta[0] == (if a.start == a.end then '.' else '-');
    assert tb[0] == (if b.start == b.end then '.' else '-');
    if a.start == a.end {
      SuffixInjective(ca, cb);
    } else {
      assert ta[1..] == NatToDecimal(a.end) + Suffix(ca);
      assert tb[1..] == NatToDecimal(b.end) + Suffix(cb);
      SplitDigits(NatToDecimal(a.end), Suffix(ca), NatToDecimal(b.end), Suffix(cb));
      NatToDecimalInjective(a.end, b.end);
      SuffixInjective(ca, cb);
    }
  }

  /** Different id ranges, or a plain and a compacted file, never share a name. */
  lemma WalNameInjective(a: Ids, ca: bool, b: Ids, cb: bool)
    requires WalName(a, ca) == WalName(b, cb)
    ensures a == b && ca == cb
  {
    SplitDigits(NatToDecimal(Lead(a)), NameTail(a, ca), NatToDecimal(Lead(b)), NameTail(b, cb));
    NatToDecimalInjective(Lead(a), Lead(b));
    NameTailInjective(a, ca, b, cb);
  }

  /** The position of the last `/`, if any. */
  function LastSlash(s: string): (r: Option<nat>)
    ensures r.Some? ==> r.value < |s| && s[r.value] == '/'
    ensures r.Some? ==> forall j :: r.value < j < |s| ==> s[j] != '/'
    ensures r.None? ==> forall j :: 0 <= j < |s| ==> s[j] != '/'
  {
    if s == [] then None
    else if s[|s| - 1] == '/' then Some(|s| - 1)
    else LastSlash(s[..|s| - 1])
  }

  /** `Path::join` of a relative name. */
  function Join(dir: string, name: string): string {
    if dir == [] then name
    else if dir[|dir| - 1] == '/' then dir + name
    else dir + "/" + name
  }

  /** `Path::parent`: everything before the last separator; a bare name has the empty parent,
    * and the root and the empty path have none. */
  function Parent(path: string): Option<string> {
    match LastSlash(path)
    case None => if path == [] then None else Some([])
    case Some(i) => if i == 0 then (if |path| == 1 then None else Some("/")) else Some(path[..i])
  }

  predicate NoSlash(s: string) {
    forall j :: 0 <= j < |s| ==> s[j] != '/'
  }

  /** A name joined to a directory has that directory as its parent. */
  lemma ParentOfJoin(dir: string, name: string)
    requires name != [] && NoSlash(name)
    requires dir == "/" || dir == [] || dir[|dir| - 1] != '/'
    ensures Parent(Join(dir, name)) == Some(dir)
  {
    var p := Join(dir, name);
    if dir == [] {
      assert LastSlash(p).None?;
    } else if dir == "/" {
      assert p == "/" + name;
      assert p[0] == '/';
      assert LastSlash(p) == Some(0);
    } else {
      assert p == dir + "/" + name;
      assert p[|dir|] == '/';
      assert LastSlash(p) == Some(|dir|);
      assert p[..|dir|] == dir;
    }
  }

  lemma NoSlashConcat(a: string, b: string)
    requires NoSlash(a) && NoSlash(b)
    ensures NoSlash(a + b)
  {
  }

  lemma DecimalNoSlash(n: nat)
    ensures NoSlash(NatToDecimal(n))
  {
    var d := NatToDecimal(n);
    forall j | 0 <= j < |d| ensures d[j] != '/' {
      assert IsDigit(d[j]);
    }
  }

  lemma WalNameNoSlash(ids: Ids, compacted: bool)
    ensures WalName(ids, compacted) != [] && NoSlash(WalName(ids, compacted))
  {
    DecimalNoSlash(Lead(ids));
    DecimalNoSlash(ids.end);
    NoSlashConcat(NatToDecimal(ids.end), Suffix(compacted));
    NoSlashConcat("-", NatToDecimal(ids.end) + Suffix(compacted));
    NoSlashConcat(NatToDecimal(Lead(ids)), NameTail(ids, compacted));
  }

  /** A file made by `create` in `dir` has `dir` as its parent, so `compact` writes the
    * compacted file into the same directory, under a different name. */
  lemma CompactedBeside(dir: string, ids: Ids)
    requires dir == "/" || dir == [] || dir[|dir| - 1] != '/'
    ensures Parent(Join(dir, WalName(ids, false))) == Some(dir)
    ensures Join(dir, WalName(ids, true)) != Join(dir, WalName(ids, false))
  {
    WalNameNoSlash(ids, false);
    ParentOfJoin(dir, WalName(ids, false));
    // The compacted name is longer by the extra suffix, and so is its joined path.
    assert |NameTail(ids, true)| == |NameTail(ids, false)| + 10;
    assert |WalName(ids, true)| == |WalName(ids, false)| + 10;
  }

  // ---- reading entries ----

  /** `SegmentFile::pop` over entries: the entry at the cursor, if any, and the cursor after it. */
  function PopAt(entries: seq<LogEntry>, pos: nat): (Option<LogEntry>, nat) {
    if pos < |entries| then (Some(entries[pos]), pos + 1) else (None, pos)
  }

  /** `read_next_record`: the first data entry at or after `pos`, skipping headers and index
    * snapshots, and the cursor after it; at the end, nothing. */
  function NextRecordAt(entries: seq<LogEntry>, pos: nat): (r: (Option<LogEntry>, nat))
    ensures r.0.Some? ==> pos < r.1 <= |entries| && r.0.value == entries[r.1 - 1] && r.0.value.Data?
    ensures r.0.Some? ==> forall j :: pos <= j < r.1 - 1 ==> !entries[j].Data?
    ensures r.0.None? ==> r.1 == (if pos < |entries| then |entries| else pos)
    ensures r.0.None? ==> forall j :: pos <= j < |entries| ==> !entries[j].Data?
    decreases |entries| - pos
  {
    if pos >= |entries| then (None, pos)
    else if entries[pos].Data? then (Some(entries[pos]), pos + 1)
    else NextRecordAt(entries, pos + 1)
  }

  /** The data entries at or after `pos`, in file order. */
  function DataFrom(entries: seq<LogEntry>, pos: nat): seq<LogEntry>
    decreases |entries| - pos
  {
    if pos >= |entries| then []
    else if entries[pos].Data? then [entries[pos]] + DataFrom(entries, pos + 1)
    else DataFrom(entries, pos + 1)
  }

  /** Reading records one after another yields the data entries in file order. */
  lemma {:induction false} NextRecordInOrder(entries: seq<LogEntry>, pos: nat)
    ensures var (r, next) := NextRecordAt(entries, pos);
      (r.None? <==> DataFrom(entries, pos) == []) &&
      (r.Some? ==> r.value == DataFrom(entries, pos)[0] && DataFrom(entries, next) == DataFrom(entries, pos)[1..])
    decreases |entries| - pos
  {
    if pos < |entries| && !entries[pos].Data? {
      NextRecordInOrder(entries, pos + 1);
    }
  }

  // ---- the layout ----

  /** The shape `create` and `append` keep: the file header first, an index snapshot recording
    * its own position last, and every indexed key pointing at a data entry with that key. */
  ghost predicate LaidOut(entries: seq<LogEntry>, header: LogFileHeader, index: map<string, nat>) {
    |entries| >= 2 && entries[0] == FileHeader(header) &&
    entries[|entries| - 1] == Index(|entries| - 1, index) &&
    forall k :: k in index ==> index[k] < |entries| && entries[index[k]].Data? && entries[index[k]].key == k
  }

  /** What `open` reads from a file: the header from the first entry and the index and count
    * from the last one. */
  datatype Opened = Opened(header: LogFileHeader, index: map<string, nat>, count: nat)

  function OpenEntries(path: string, entries: seq<LogEntry>): (r: Result<Opened, Error>)
    ensures r.Ok? <==> |entries| > 0 && entries[0].FileHeader? && entries[|entries| - 1].Index?
    ensures r.Ok? ==> r.value == Opened(entries[0].header, entries[|entries| - 1].index, entries[|entries| - 1].count)
    ensures |entries| == 0 ==> r == Err(EmptyFile(path))
    ensures |entries| > 0 && !entries[0].FileHeader? ==> r == Err(HeaderMissing(path))
    ensures |entries| > 0 && entries[0].FileHeader? && !entries[|entries| - 1].Index? ==> r == Err(IncompleteWrite(path))
  {
    if |entries| == 0 then Err(EmptyFile(path))
    else if !entries[0].FileHeader? then Err(HeaderMissing(path))
    else
      var last := entries[|entries| - 1];
      if !last.Index? then Err(IncompleteWrite(path))
      else Ok(Opened(entries[0].header, last.index, last.count))
  }

  /** A laid-out file opens to its own header and index, and its last snapshot records the
    * position of that snapshot: one less than the number of entries. */
  lemma OpenLaidOut(path: string, entries: seq<LogEntry>, header: LogFileHeader, index: map<string, nat>)
    requires LaidOut(entries, header, index)
    ensures OpenEntries(path, entries) == Ok(Opened(header, index, |entries| - 1))
  {
  }

  /** The count `open` takes from the snapshot is the snapshot's own position, so the next
    * `write_entry_data` indexes its key at that snapshot instead of at the new data entry. */
  lemma ReopenedCountIndexesSnapshot(entries: seq<LogEntry>, header: LogFileHeader, index: map<string, nat>,
                                     key: string, data: seq<Byte>)
    requires LaidOut(entries, header, index)
    ensures var count := OpenEntries([], entries).value.count;
      var index' := index[key := count];
      var entries' := entries + [Data(key, data), Index(count + 1, index')];
      entries'[index'[key]].Index? && !LaidOut(entries', header, index')
  {
    var count := |entries| - 1;
    var index' := index[key := count];
    var entries' := entries + [Data(key, data), Index(count + 1, index')];
    assert entries'[count] == entries[count];
  }

  /** With the count taken as one past the snapshot, the next `write_entry_data` keeps the
    * layout. */
  lemma ReopenedCountCorrected(entries: seq<LogEntry>, header: LogFileHeader, index: map<string, nat>,
                               key: string, data: seq<Byte>)
    requires LaidOut(entries, header, index)
    ensures var count := OpenEntries([], entries).value.count + 1;
      var index' := index[key := count];
      var entries' := entries + [Data(key, data), Index(count + 1, index')];
      count == |entries| && LaidOut(entries', header, index')
  {
    var count := |entries|;
    var index' := index[key := count];
    var entries' := entries + [Data(key, data), Index(count + 1, index')];
    forall k | k in index'
      ensures index'[k] < |entries'| && entries'[index'[k]].Data? && entries'[index'[k]].key == k
    {
      if k != key {
        assert entries'[index'[k]] == entries[index[k]];
      }
    }
  }

  /** `cmp`: `Less` when this file's ids all come before the other's, `Equal` for equal headers,
    * and `Greater` otherwise. */
  function CmpHeaders(a: LogFileHeader, b: LogFileHeader): (r: Ordering)
    ensures r == Less <==> a.ids.end < b.ids.start
    ensures r == Equal <==> !(a.ids.end < b.ids.start) && a == b
  {
    if a.ids.end < b.ids.start then Less
    else if a == b then Equal
    else Greater
  }

  /** Files covering disjoint, non-empty id ranges compare in opposite directions. */
  lemma CmpDisjoint(a: LogFileHeader, b: LogFileHeader)
    requires a.ids.start <= a.ids.end < b.ids.start <= b.ids.end
    ensures CmpHeaders(a, b) == Less && CmpHeaders(b, a) == Greater
  {
  }

  /** A header is `Equal` to itself exactly when its id range is not empty. */
  lemma CmpSelf(a: LogFileHeader)
    ensures CmpHeaders(a, a) == Equal <==> a.ids.start <= a.ids.end
  {
  }

  /** Two different files with overlapping ids are each `Greater` than the other. */
  lemma CmpOverlapBothGreater()
    ensures var a := NewLogFileHeader(Ids(0, 2), false, 0);
      var b := NewLogFileHeader(Ids(1, 3), false, 0);
      CmpHeaders(a, b) == Greater && CmpHeaders(b, a) == Greater
  {
  }

  // ---- compaction ----

  /** A data entry picked up by `compact`: its position, its key and the entry. */
  datatype Picked = Picked(pos: nat, key: string, entry: LogEntry)

  predicate Ascending(ps: seq<Picked>) {
    forall i, j :: 0 <= i < j < |ps| ==> ps[i].pos <= ps[j].pos
  }

  predicate KeysDistinct(ps: seq<Picked>) {
    forall i, j :: 0 <= i < j < |ps| ==> ps[i].key != ps[j].key
  }

  function Keys(ps: seq<Picked>): set<string> {
    set i | 0 <= i < |ps| :: ps[i].key
  }

  lemma KeysSnoc(ps: seq<Picked>, p: Picked)
    ensures Keys(ps + [p]) == Keys(ps) + {p.key}
  {
    var qs := ps + [p];
    assert qs[|ps|].key == p.key;
    forall k | k in Keys(ps) ensures k in Keys(qs) {
      var i :| 0 <= i < |ps| && ps[i].key == k;
      assert qs[i].key == k;
    }
  }

  /** `p` is the entry `compact` reads for its key. */
  predicate PickedFrom(p: Picked, entries: seq<LogEntry>, index: map<string, nat>) {
    p.key in index && p.pos == index[p.key] && p.pos < |entries| && p.entry == entries[p.pos]
  }

  /** What the collection loop of `compact` has gathered once the keys in `rest` remain. */
  ghost predicate CollectedSoFar(ps: seq<Picked>, rest: set<string>, entries: seq<LogEntry>, index: map<string, nat>) {
    rest <= index.Keys && |ps| + |rest| == |index.Keys| && Keys(ps) == index.Keys - rest && KeysDistinct(ps) &&
    forall i :: 0 <= i < |ps| ==> PickedFrom(ps[i], entries, index)
  }

  lemma CollectStep(ps: seq<Picked>, rest: set<string>, entries: seq<LogEntry>, index: map<string, nat>, key: string)
    requires CollectedSoFar(ps, rest, entries, index) && key in rest && index[key] < |entries|
    ensures CollectedSoFar(ps + [Picked(index[key], key, entries[index[key]])], rest - {key}, entries, index)
  {
    KeysSnoc(ps, Picked(index[key], key, entries[index[key]]));
    TakeKey(index.Keys, rest, Keys(ps), key);
    DistinctSnoc(ps, Picked(index[key], key, entries[index[key]]));
    PickedSnoc(ps, Picked(index[key], key, entries[index[key]]), entries, index);
  }

  /** Moving one key from the keys left to the keys done. */
  lemma TakeKey(keys: set<string>, rest: set<string>, done: set<string>, key: string)
    requires rest <= keys && done == keys - rest && key in rest
    ensures key !in done && rest - {key} <= keys && |rest - {key}| == |rest| - 1
    ensures done + {key} == keys - (rest - {key})
  {
  }

  lemma DistinctSnoc(ps: seq<Picked>, p: Picked)
    requires KeysDistinct(ps) && p.key !in Keys(ps)
    ensures KeysDistinct(ps + [p])
  {
    forall i | 0 <= i < |ps| ensures (ps + [p])[i].key != p.key {
      assert ps[i].key in Keys(ps);
    }
  }

  lemma PickedSnoc(ps: seq<Picked>, p: Picked, entries: seq<LogEntry>, index: map<string, nat>)
    requires forall i :: 0 <= i < |ps| ==> PickedFrom(ps[i], entries, index)
    requires PickedFrom(p, entries, index)
    ensures forall i :: 0 <= i < |ps + [p]| ==> PickedFrom((ps + [p])[i], entries, index)
  {
  }

  lemma CollectDone(ps: seq<Picked>, entries: seq<LogEntry>, index: map<string, nat>)
    requires CollectedSoFar(ps, {}, entries, index)
    ensures InRange(entries, index)
  {
    forall k | k in index ensures index[k] < |entries| {
      assert k in Keys(ps);
      var i :| 0 <= i < |ps| && ps[i].key == k;
    }
  }

  /** Every indexed position lies inside the file. */
  predicate InRange(entries: seq<LogEntry>, index: map<string, nat>) {
    forall k :: k in index ==> index[k] < |entries|
  }

  /** Inserting `p` before the first element placed after it. */
  method Insert(sorted: seq<Picked>, p: Picked) returns (t: seq<Picked>)
    requires Ascending(sorted)
    ensures Ascending(t) && multiset(t) == multiset(sorted) + multiset{p}
    ensures KeysDistinct(sorted) && p.key !in Keys(sorted) ==> KeysDistinct(t)
  {
    var i := 0;
    while i < |sorted| && sorted[i].pos <= p.pos
      invariant i <= |sorted|
      invariant forall j :: 0 <= j < i ==> sorted[j].pos <= p.pos
    {
      i := i + 1;
    }
    t := sorted[..i] + [p] + sorted[i..];
    InsertAscending(sorted, i, p);
  }

  lemma InsertAscending(s: seq<Picked>, i: nat, p: Picked)
    requires Ascending(s) && i <= |s|
    requires forall j :: 0 <= j < i ==> s[j].pos <= p.pos
    requires i < |s| ==> p.pos < s[i].pos
    ensures Ascending(s[..i] + [p] + s[i..])
    ensures multiset(s[..i] + [p] + s[i..]) == multiset(s) + multiset{p}
    ensures KeysDistinct(s) && p.key !in Keys(s) ==> KeysDistinct(s[..i] + [p] + s[i..])
  {
    var t := s[..i] + [p] + s[i..];
    InsertedAt(s, i, p);
    forall a, b | 0 <= a < b < |t| ensures t[a].pos <= t[b].pos {
      if a < i && b > i {
        assert s[a].pos <= p.pos;
      }
    }
    InsertedMultiset(s, i, p);
    if KeysDistinct(s) && p.key !in Keys(s) {
      InsertedDistinct(s, i, p);
    }
  }

  lemma InsertedMultiset(s: seq<Picked>, i: nat, p: Picked)
    requires i <= |s|
    ensures multiset(s[..i] + [p] + s[i..]) == multiset(s) + multiset{p}
  {
    assert s == s[..i] + s[i..];
  }

  lemma InsertedDistinct(s: seq<Picked>, i: nat, p: Picked)
    requires i <= |s| && KeysDistinct(s) && p.key !in Keys(s)
    ensures KeysDistinct(s[..i] + [p] + s[i..])
  {
    var t := s[..i] + [p] + s[i..];
    InsertedAt(s, i, p);
    forall a, b | 0 <= a < b < |t| ensures t[a].key != t[b].key {
      if a == i {
        assert s[b - 1].key in Keys(s);
      } else if b == i {
        assert s[a].key in Keys(s);
      }
    }
  }

  lemma InsertedAt(s: seq<Picked>, i: nat, p: Picked)
    requires i <= |s|
    ensures var t := s[..i] + [p] + s[i..];
      |t| == |s| + 1 && t[i] == p &&
      (forall x :: 0 <= x < i ==> t[x] == s[x]) && (forall x :: i < x < |t| ==> t[x] == s[x - 1])
  {
  }

  /** `sort_by` on positions: an insertion sort into ascending order, keeping the elements. */
  method SortByPosition(ps: seq<Picked>) returns (sorted: seq<Picked>)
    ensures Ascending(sorted) && multiset(sorted) == multiset(ps)
    ensures KeysDistinct(ps) ==> KeysDistinct(sorted)
  {
    sorted := [];
    for k := 0 to |ps|
      invariant Ascending(sorted) && multiset(sorted) == multiset(ps[..k])
      invariant KeysDistinct(ps) ==> KeysDistinct(sorted) && Keys(sorted) == Keys(ps[..k])
    {
      assert ps[..k + 1] == ps[..k] + [ps[k]];
      if KeysDistinct(ps) {
        KeysSnoc(ps[..k], ps[k]);
        NotInPrefix(ps, k);
      }
      sorted := Insert(sorted, ps[k]);
      if KeysDistinct(ps) {
        SameKeys(sorted, ps[..k + 1]);
      }
    }
    assert ps[..|ps|] == ps;
  }

  lemma NotInPrefix(ps: seq<Picked>, k: nat)
    requires KeysDistinct(ps) && k < |ps|
    ensures ps[k].key !in Keys(ps[..k])
  {
    forall i | 0 <= i < k
      ensures ps[..k][i].key != ps[k].key
    {
      assert ps[..k][i] == ps[i];
    }
  }

  /** Runs holding the same elements hold the same keys. */
  lemma SameKeys(a: seq<Picked>, b: seq<Picked>)
    requires multiset(a) == multiset(b)
    ensures Keys(a) == Keys(b)
  {
    forall k | k in Keys(a) ensures k in Keys(b) {
      var i :| 0 <= i < |a| && a[i].key == k;
      assert a[i] in multiset(b);
      var j :| 0 <= j < |b| && b[j] == a[i];
    }
    forall k | k in Keys(b) ensures k in Keys(a) {
      var j :| 0 <= j < |b| && b[j].key == k;
      assert b[j] in multiset(a);
      var i :| 0 <= i < |a| && a[i] == b[j];
    }
  }

  lemma SortedPicks(picked: seq<Picked>, sorted: seq<Picked>, entries: seq<LogEntry>, index: map<string, nat>)
    requires multiset(sorted) == multiset(picked)
    requires forall i :: 0 <= i < |picked| ==> PickedFrom(picked[i], entries, index)
    ensures |sorted| == |picked| && Keys(sorted) == Keys(picked)
    ensures forall j :: 0 <= j < |sorted| ==> PickedFrom(sorted[j], entries, index)
  {
    assert |multiset(sorted)| == |multiset(picked)|;
    forall j | 0 <= j < |sorted| ensures PickedFrom(sorted[j], entries, index) {
      assert sorted[j] in multiset(picked);
    }
    SameKeys(sorted, picked);
  }

  /** The entries `compact` writes after the header: each picked entry in turn, each key indexed
    * at the position its entry lands on, then the snapshot of that index. */
  method Build(h: LogFileHeader, sorted: seq<Picked>) returns (compacted: seq<LogEntry>, newIndex: map<string, nat>)
    ensures |compacted| == |sorted| + 2 && compacted[0] == FileHeader(h)
    ensures compacted[|sorted| + 1] == Index(|sorted| + 1, newIndex)
    ensures forall j :: 0 <= j < |sorted| ==> compacted[j + 1] == sorted[j].entry
    ensures newIndex.Keys == Keys(sorted)
    ensures KeysDistinct(sorted) ==> forall j :: 0 <= j < |sorted| ==> newIndex[sorted[j].key] == j + 1
  {
    compacted := [FileHeader(h)];
    var count := 1;
    newIndex := map[];
    for i := 0 to |sorted|
      invariant count == i + 1 && |compacted| == count && compacted[0] == FileHeader(h)
      invariant newIndex.Keys == Keys(sorted[..i])
      invariant KeysDistinct(sorted) ==> forall j :: 0 <= j < i ==> newIndex[sorted[j].key] == j + 1
      invariant forall j :: 0 <= j < i ==> compacted[j + 1] == sorted[j].entry
    {
      IndexSnoc(sorted, i, newIndex);
      newIndex := newIndex[sorted[i].key := count];
      compacted := compacted + [sorted[i].entry];
      count := count + 1;
    }
    assert sorted[..|sorted|] == sorted;
    compacted := compacted + [Index(count, newIndex)];
  }

  /** Indexing the key of picked entry `i` at position `i + 1` extends the index of the entries
    * before it. */
  lemma IndexSnoc(sorted: seq<Picked>, i: nat, index: map<string, nat>)
    requires i < |sorted| && index.Keys == Keys(sorted[..i])
    requires KeysDistinct(sorted) ==> forall j :: 0 <= j < i ==> index[sorted[j].key] == j + 1
    ensures index[sorted[i].key := i + 1].Keys == Keys(sorted[..i + 1])
    ensures KeysDistinct(sorted) ==>
      forall j :: 0 <= j < i + 1 ==> index[sorted[i].key := i + 1][sorted[j].key] == j + 1
  {
    assert sorted[..i + 1] == sorted[..i] + [sorted[i]];
    KeysSnoc(sorted[..i], sorted[i]);
  }

  /** The file `compact` writes from `oldEntries` and `oldIndex`: the header `h`, then for each
    * key the entry it was indexed at, in the order of the old positions, then a snapshot of the
    * new index. */
  ghost predicate CompactedFrom(entries: seq<LogEntry>, index: map<string, nat>, h: LogFileHeader,
                                oldEntries: seq<LogEntry>, oldIndex: map<string, nat>) {
    var n := |oldIndex|;
    |entries| == n + 2 && entries[0] == FileHeader(h) && entries[n + 1] == Index(n + 1, index) &&
    index.Keys == oldIndex.Keys &&
    (forall k :: k in index ==>
      1 <= index[k] <= n && oldIndex[k] < |oldEntries| && entries[index[k]] == oldEntries[oldIndex[k]]) &&
    (forall k1, k2 :: k1 in index && k2 in index && k1 != k2 ==> index[k1] != index[k2]) &&
    (forall k1, k2 :: k1 in index && k2 in index && oldIndex[k1] < oldIndex[k2] ==> index[k1] < index[k2])
  }

  /** What `Build` makes of the picked entries sorted by position is the compacted file. */
  lemma CompactedOf(compacted: seq<LogEntry>, newIndex: map<string, nat>, h: LogFileHeader,
                    entries: seq<LogEntry>, index: map<string, nat>, sorted: seq<Picked>)
    requires |sorted| == |index| && Keys(sorted) == index.Keys
    requires Ascending(sorted) && KeysDistinct(sorted)
    requires forall j :: 0 <= j < |sorted| ==> PickedFrom(sorted[j], entries, index)
    requires |compacted| == |sorted| + 2 && compacted[0] == FileHeader(h)
    requires compacted[|sorted| + 1] == Index(|sorted| + 1, newIndex)
    requires forall j :: 0 <= j < |sorted| ==> compacted[j + 1] == sorted[j].entry
    requires newIndex.Keys == Keys(sorted)
    requires forall j :: 0 <= j < |sorted| ==> newIndex[sorted[j].key] == j + 1
    ensures CompactedFrom(compacted, newIndex, h, entries, index)
  {
    CompactedContents(compacted, newIndex, entries, index, sorted);
    CompactedOrder(newIndex, entries, index, sorted);
  }

  lemma CompactedContents(compacted: seq<LogEntry>, newIndex: map<string, nat>,
                          entries: seq<LogEntry>, index: map<string, nat>, sorted: seq<Picked>)
    requires forall j :: 0 <= j < |sorted| ==> PickedFrom(sorted[j], entries, index)
    requires |compacted| == |sorted| + 2
    requires forall j :: 0 <= j < |sorted| ==> compacted[j + 1] == sorted[j].entry
    requires newIndex.Keys == Keys(sorted)
    requires forall j :: 0 <= j < |sorted| ==> newIndex[sorted[j].key] == j + 1
    ensures forall k :: k in newIndex ==>
      1 <= newIndex[k] <= |sorted| && k in index && index[k] < |entries| && compacted[newIndex[k]] == entries[index[k]]
  {
    forall k | k in newIndex
      ensures 1 <= newIndex[k] <= |sorted| && k in index && index[k] < |entries| && compacted[newIndex[k]] == entries[index[k]]
    {
      var j :| 0 <= j < |sorted| && sorted[j].key == k;
      assert PickedFrom(sorted[j], entries, index);
    }
  }

  lemma CompactedOrder(newIndex: map<string, nat>, entries: seq<LogEntry>, index: map<string, nat>, sorted: seq<Picked>)
    requires Ascending(sorted)
    requires forall j :: 0 <= j < |sorted| ==> PickedFrom(sorted[j], entries, index)
    requires newIndex.Keys == Keys(sorted)
    requires forall j :: 0 <= j < |sorted| ==> newIndex[sorted[j].key] == j + 1
    ensures forall k1, k2 :: k1 in newIndex && k2 in newIndex && k1 != k2 ==> newIndex[k1] != newIndex[k2]
    ensures forall k1, k2 :: k1 in newIndex && k2 in newIndex && k1 in index && k2 in index && index[k1] < index[k2] ==>
      newIndex[k1] < newIndex[k2]
  {
    forall k1, k2 | k1 in newIndex && k2 in newIndex
      ensures k1 != k2 ==> newIndex[k1] != newIndex[k2]
      ensures k1 in index && k2 in index && index[k1] < index[k2] ==> newIndex[k1] < newIndex[k2]
    {
      var j1 :| 0 <= j1 < |sorted| && sorted[j1].key == k1;
      var j2 :| 0 <= j2 < |sorted| && sorted[j2].key == k2;
      assert PickedFrom(sorted[j1], entries, index) && PickedFrom(sorted[j2], entries, index);
    }
  }

  /** Compacting a laid-out file lays out the compacted one. */
  lemma CompactedLaidOut(entries: seq<LogEntry>, index: map<string, nat>, h: LogFileHeader,
                         oldEntries: seq<LogEntry>, oldHeader: LogFileHeader, oldIndex: map<string, nat>)
    requires LaidOut(oldEntries, oldHeader, oldIndex)
    requires CompactedFrom(entries, index, h, oldEntries, oldIndex)
    ensures LaidOut(entries, h, index)
  {
  }

  /** The file names that exist in the directories the log files live in. */
  class Directory {
    var names: set<string>

    constructor (names: set<string>)
      ensures this.names == names
    {
      this.names := names;
    }
  }

  class LogStructuredFile {
    var path: string
    var header: LogFileHeader
    var index: map<string, nat>
    var entryCount: nat
    /** The entries of the underlying segment file. */
    var entries: seq<LogEntry>
    /** The segment file's read position, in entries. */
    var cursor: nat

    /** The handle counts the entries of its file and the file is laid out. */
    ghost predicate Valid()
      reads this
    {
      entryCount == |entries| && LaidOut(entries, header, index)
    }

    /** `LogStructuredFile::new`: an empty index and count over an open segment file. */
    constructor (path: string, entries: seq<LogEntry>, header: LogFileHeader)
      ensures this.path == path && this.entries == entries && this.header == header
      ensures index == map[] && entryCount == 0 && cursor == 0
    {
      this.path := path;
      this.entries := entries;
      this.header := header;
      index := map[];
      entryCount := 0;
      cursor := 0;
    }

    /** `read_next`: the entry at the cursor. */
    method ReadNext() returns (r: Option<LogEntry>)
      modifies this`cursor
      ensures (r, cursor) == PopAt(entries, old(cursor))
    {
      if cursor < |entries| {
        r := Some(entries[cursor]);
        cursor := cursor + 1;
      } else {
        r := None;
      }
    }

    /** `read_next_record`: reads on until a data entry, skipping headers and index snapshots. */
    method ReadNextRecord() returns (r: Option<LogEntry>)
      modifies this`cursor
      ensures (r, cursor) == NextRecordAt(entries, old(cursor))
    {
      while true
        invariant NextRecordAt(entries, cursor) == NextRecordAt(entries, old(cursor))
        decreases |entries| - cursor
      {
        var l := ReadNext();
        if l.None? {
          return None;
        }
        if l.value.Data? {
          return l;
        }
      }
    }

    /** `pop`: the bytes of the next data record. */
    method Pop() returns (r: Option<seq<Byte>>)
      modifies this`cursor
      ensures var (l, next) := NextRecordAt(entries, old(cursor));
        cursor == next && r == (if l.Some? then Some(l.value.data) else None)
    {
      var l := ReadNextRecord();
      if l.None? {
        return None;
      }
      return Some(l.value.data);
    }

    /** `pop_pointer`: a pointer to the next data record, in this file. */
    method PopPointer() returns (r: Option<LogEntryPointer>)
      modifies this`cursor
      ensures var (l, next) := NextRecordAt(entries, old(cursor));
        cursor == next && r == (if l.Some? then Some(LogEntryPointer(header.ids.start, l.value.key)) else None)
    {
      var l := ReadNextRecord();
      if l.None? {
        return None;
      }
      return Some(LogEntryPointer(header.ids.start, l.value.key));
    }

    /** `write_end`: one entry at the end of the file, counted. */
    method WriteEnd(l: LogEntry)
      modifies this`entries, this`entryCount
      ensures entries == old(entries) + [l] && entryCount == old(entryCount) + 1
    {
      entries := entries + [l];
      entryCount := entryCount + 1;
    }

    /** `write_entry_data`: the key is indexed at the position the entry is written to, then an
      * index snapshot recording the count before it follows. */
    method WriteEntryData(key: string, l: LogEntry)
      modifies this`index, this`entries, this`entryCount
      ensures index == old(index)[key := old(entryCount)]
      ensures entries == old(entries) + [l, Index(old(entryCount) + 1, index)]
      ensures entryCount == old(entryCount) + 2
      ensures old(Valid()) && l.Data? && l.key == key ==> Valid()
    {
      ghost var wasValid := Valid();
      index := index[key := entryCount];
      WriteEnd(l);
      WriteEnd(Index(entryCount, index));
      if wasValid && l.Data? && l.key == key {
        forall k | k in index
          ensures index[k] < |entries| && entries[index[k]].Data? && entries[index[k]].key == k
        {
          if k != key {
            assert entries[index[k]] == old(entries)[old(index)[k]];
          }
        }
      }
    }

    /** `append`: the record as a data entry; the returned position names this file and the key. */
    method Append(key: string, data: seq<Byte>) returns (p: LogEntryPointer)
      modifies this`index, this`entries, this`entryCount
      ensures p == LogEntryPointer(header.ids.start, key)
      ensures index == old(index)[key := old(entryCount)]
      ensures entries == old(entries) + [Data(key, data), Index(old(entryCount) + 1, index)]
      ensures entryCount == old(entryCount) + 2
      ensures old(Valid()) ==> Valid() && index[key] == |old(entries)|
    {
      WriteEntryData(key, Data(key, data));
      return LogEntryPointer(header.ids.start, key);
    }

    /** `read_entry_by_pointer`: the next data entry from the key's indexed position (a key
      * missing from the index panics). */
    method ReadEntryByPointer(p: LogEntryPointer) returns (r: Result<Option<LogEntry>, Error>)
      modifies this`cursor
      ensures p.entryKey !in index ==> r == Err(Panic("key not found in index")) && cursor == old(cursor)
      ensures p.entryKey in index ==>
        var (l, next) := NextRecordAt(entries, index[p.entryKey]);
        r == Ok(l) && cursor == next
    {
      if p.entryKey !in index {
        return Err(Panic("key not found in index"));
      }
      cursor := index[p.entryKey];
      var l := ReadNextRecord();
      return Ok(l);
    }

    /** `read_by_pointer`: the bytes of the next data record from the key's indexed position. */
    method ReadByPointer(p: LogEntryPointer) returns (r: Result<Option<seq<Byte>>, Error>)
      modifies this`cursor
      ensures p.entryKey !in index ==> r == Err(Panic("key not found in index")) && cursor == old(cursor)
      ensures p.entryKey in index ==>
        var (l, next) := NextRecordAt(entries, index[p.entryKey]);
        r == Ok(if l.Some? then Some(l.value.data) else None) && cursor == next
      ensures Valid() && p.entryKey in index ==>
        r == Ok(Some(entries[index[p.entryKey]].data)) && entries[index[p.entryKey]].key == p.entryKey
    {
      if p.entryKey !in index {
        return Err(Panic("key not found in index"));
      }
      cursor := index[p.entryKey];
      var data := Pop();
      return Ok(data);
    }

    /** `compact`: unless already compacted, writes a compacted file next to this one holding the
      * header marked compacted, the entry each key is indexed at (in the order of their
      * positions), and an index snapshot of the new positions; then the old file is removed and
      * the handle moves over to the new one. */
    method Compact(dir: Directory) returns (r: Result<(), Error>)
      modifies this, dir
      ensures old(header.compacted) ==> r == Ok(()) && unchanged(this, dir)
      ensures !old(header.compacted) && Parent(old(path)).None? ==>
        r == Err(Panic("called `Option::unwrap()` on a `None` value")) && unchanged(this, dir)
      ensures !old(header.compacted) && Parent(old(path)).Some? ==>
        var newPath := Join(Parent(old(path)).value, WalName(old(header.ids), true));
        var h := old(header).(compacted := true);
        (newPath in old(dir.names) ==> r == Err(FileExisted(newPath)) && unchanged(this, dir)) &&
        (newPath !in old(dir.names) && !InRange(old(entries), old(index)) ==>
          r == Err(Panic("called `Option::unwrap()` on a `None` value")) &&
          dir.names == old(dir.names) + {newPath} && path == old(path) && header == old(header) &&
          index == old(index) && entries == old(entries) && entryCount == old(entryCount)) &&
        (newPath !in old(dir.names) && InRange(old(entries), old(index)) ==>
          r == Ok(()) && dir.names == old(dir.names) + {newPath} - {old(path)} && path == newPath &&
          header == h && cursor == 0 && entryCount == |entries| &&
          CompactedFrom(entries, index, h, old(entries), old(index)))
      ensures old(Valid()) && r.Ok? ==> Valid()
    {
      if header.compacted {
        return Ok(());
      }
      var parent := Parent(path);
      if parent.None? {
        return Err(Panic("called `Option::unwrap()` on a `None` value"));
      }
      var newPath := Join(parent.value, WalName(header.ids, true));
      if newPath in dir.names {
        return Err(FileExisted(newPath));
      }
      dir.names := dir.names + {newPath};
      var h := header.(compacted := true);
      var rewritten := Rewrite(h);
      if rewritten.None? {
        return Err(Panic("called `Option::unwrap()` on a `None` value"));
      }
      var (compacted, newIndex) := rewritten.value;
      SwitchTo(dir, newPath, h, compacted, newIndex);
      return Ok(());
    }

    /** The end of `compact`: the old file is removed and the handle moves over to the compacted
      * one, read from its start. */
    method SwitchTo(dir: Directory, newPath: string, h: LogFileHeader, compacted: seq<LogEntry>,
                    newIndex: map<string, nat>)
      modifies this, dir
      ensures dir.names == old(dir.names) - {old(path)} && path == newPath && header == h
      ensures entries == compacted && index == newIndex && cursor == 0 && entryCount == |compacted|
    {
      dir.names := dir.names - {path};
      entries, cursor, path, header, index, entryCount := compacted, 0, newPath, h, newIndex, |compacted|;
    }

    /** The body of `compact` between creating the compacted file and switching over to it:
      * the indexed entries are read back, sorted by position and written out. */
    method Rewrite(h: LogFileHeader) returns (r: Option<(seq<LogEntry>, map<string, nat>)>)
      modifies this`cursor
      ensures r.None? <==> !InRange(entries, index)
      ensures r.Some? ==> CompactedFrom(r.value.0, r.value.1, h, entries, index)
      ensures r.Some? && LaidOut(entries, header, index) ==> LaidOut(r.value.0, h, r.value.1)
    {
      var picked := Collect();
      if picked.None? {
        return None;
      }
      var sorted := SortByPosition(picked.value);
      SortedPicks(picked.value, sorted, entries, index);
      var compacted, newIndex := Build(h, sorted);
      CompactedOf(compacted, newIndex, h, entries, index, sorted);
      if LaidOut(entries, header, index) {
        CompactedLaidOut(compacted, newIndex, h, entries, header, index);
      }
      return Some((compacted, newIndex));
    }

    /** The loop of `compact` that reads, for each indexed key in some order, the entry at its
      * position; a position past the end reads nothing, and the unwrap panics. */
    method Collect() returns (picked: Option<seq<Picked>>)
      modifies this`cursor
      ensures picked.None? <==> !InRange(entries, index)
      ensures picked.Some? ==>
        |picked.value| == |index| && Keys(picked.value) == index.Keys && KeysDistinct(picked.value) &&
        forall i :: 0 <= i < |picked.value| ==> PickedFrom(picked.value[i], entries, index)
    {
      var ps: seq<Picked> := [];
      var rest := index.Keys;
      while rest != {}
        invariant CollectedSoFar(ps, rest, entries, index)
        decreases |rest|
      {
        var key :| key in rest;
        var pos := index[key];
        cursor := pos;
        var l := ReadNext();
        if l.None? {
          return None;
        }
        CollectStep(ps, rest, entries, index, key);
        ps := ps + [Picked(pos, key, l.value)];
        rest := rest - {key};
      }
      CollectDone(ps, entries, index);
      return Some(ps);
    }
  }

  /** `Ord::cmp` between two files: by their headers. */
  function Cmp(a: LogStructuredFile, b: LogStructuredFile): (r: Ordering)
    reads a, b
    ensures r == CmpHeaders(a.header, b.header)
  {
    CmpHeaders(a.header, b.header)
  }

  /** `create`: names the file after the header's ids, refuses an existing name, and writes the
    * file header and an empty index snapshot. */
  method Create(dir: Directory, dirPath: string, header: LogFileHeader) returns (r: Result<LogStructuredFile, Error>)
    modifies dir
    ensures var path := Join(dirPath, WalName(header.ids, false));
      (path in old(dir.names) ==> r == Err(FileExisted(path)) && dir.names == old(dir.names)) &&
      (path !in old(dir.names) ==>
        r.Ok? && fresh(r.value) && dir.names == old(dir.names) + {path} &&
        r.value.path == path && r.value.header == header && r.value.index == map[] &&
        r.value.entries == [FileHeader(header), Index(1, map[])] && r.value.entryCount == 2 &&
        r.value.cursor == 0 && r.value.Valid())
  {
    var path := Join(dirPath, WalName(header.ids, false));
    if path in dir.names {
      return Err(FileExisted(path));
    }
    dir.names := dir.names + {path};
    var file := new LogStructuredFile(path, [], header);
    file.WriteEnd(FileHeader(file.header));
    file.WriteEnd(Index(file.entryCount, file.index));
    return Ok(file);
  }

  /** `open`, with the count of entries as a parameter of what it does with the count read from
    * the last index snapshot: the file must start with a header and end with a snapshot; the
    * handle takes the header, the index and the count, and reads from the start. */
  method OpenWith(path: string, entries: seq<LogEntry>, countsSnapshot: bool) returns (r: Result<LogStructuredFile, Error>)
    ensures OpenEntries(path, entries).Err? ==> r == Err(OpenEntries(path, entries).error)
    ensures OpenEntries(path, entries).Ok? ==>
      var o := OpenEntries(path, entries).value;
      r.Ok? && fresh(r.value) && r.value.path == path && r.value.entries == entries &&
      r.value.header == o.header && r.value.index == o.index && r.value.cursor == 0 &&
      r.value.entryCount == (if countsSnapshot then o.count + 1 else o.count)
  {
    var file := new LogStructuredFile(path, entries, NewLogFileHeader(Ids(0, 0), false, 0));
    var first := file.ReadNext();
    if first.None? {
      return Err(EmptyFile(path));
    }
    if !first.value.FileHeader? {
      return Err(HeaderMissing(path));
    }
    file.header := first.value.header;
    file.cursor := |entries| - 1;
    var last := file.ReadNext();
    if !last.value.Index? {
      return Err(IncompleteWrite(path));
    }
    file.index := last.value.index;
    file.entryCount := if countsSnapshot then last.value.count + 1 else last.value.count;
    file.cursor := 0;
    return Ok(file);
  }

  /** `open` as written: the count is the one the last snapshot records, which is that
    * snapshot's own position. */
  method OpenAsWritten(path: string, entries: seq<LogEntry>) returns (r: Result<LogStructuredFile, Error>)
    ensures OpenEntries(path, entries).Err? ==> r == Err(OpenEntries(path, entries).error)
    ensures OpenEntries(path, entries).Ok? ==>
      r.Ok? && fresh(r.value) && r.value.entryCount == OpenEntries(path, entries).value.count
    ensures forall h, idx :: LaidOut(entries, h, idx) ==> r.Ok? && r.value.entryCount == |entries| - 1
  {
    r := OpenWith(path, entries, false);
  }

  /** `open`, counting the snapshot itself: a laid-out file opens to a valid handle. */
  method Open(path: string, entries: seq<LogEntry>) returns (r: Result<LogStructuredFile, Error>)
    ensures OpenEntries(path, entries).Err? ==> r == Err(OpenEntries(path, entries).error)
    ensures OpenEntries(path, entries).Ok? ==>
      var o := OpenEntries(path, entries).value;
      r.Ok? && fresh(r.value) && r.value.path == path && r.value.entries == entries &&
      r.value.header == o.header && r.value.index == o.index && r.value.cursor == 0 &&
      r.value.entryCount == o.count + 1
    ensures forall h, idx :: LaidOut(entries, h, idx) ==> r.Ok? && r.value.Valid()
  {
    r := OpenWith(path, entries, true);
  }
}
