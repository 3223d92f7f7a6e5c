// The third key-value store: the log holds the commands and the in-memory index maps each key to
// a pointer at the command that last wrote it; `get` follows the pointer into the log. The
// single-threaded store and the engine's inner store are the same code, and the engine's shared
// store forwards every call to its inner store.
module KvsIndex {
  import opened Wrappers

  datatype Command = Set(key: string, value: string) | Remove(key: string)

  /** Where a command sits in the log, with the key it was written for. */
  datatype Pointer = Pointer(pos: nat, key: string)

  datatype KvError = KeyNotFound(key: string) | DataNotFound(key: string)

  /** The position of the last command for `key` in the log, if there is one. */
  function Latest(wal: seq<Command>, key: string): (r: Option<nat>)
    ensures r.Some? ==>
      r.value < |wal| && wal[r.value].key == key &&
      forall j :: r.value < j < |wal| ==> wal[j].key != key
    ensures r.None? ==> forall j :: 0 <= j < |wal| ==> wal[j].key != key
    decreases |wal|
  {
    if wal == [] then None
    else if wal[|wal| - 1].key == key then Some(|wal| - 1)
    else Latest(wal[..|wal| - 1], key)
  }

  /** What the log says a key holds: the value of its last command if that is a set, and
    * nothing if it is a remove or there is none. */
  function Value(wal: seq<Command>, key: string): Option<string> {
    match Latest(wal, key)
    case None => None
    case Some(i) => if wal[i].Set? then Some(wal[i].value) else None
  }

  /** The index is faithful to the log: an indexed key points at its last command, and a key
    * that is not indexed holds nothing. */
  ghost predicate Indexed(data: map<string, Pointer>, wal: seq<Command>) {
    (forall k :: k in data ==> data[k].key == k && Latest(wal, k) == Some(data[k].pos)) &&
    (forall k :: k !in data ==> Value(wal, k) == None)
  }

  /** One more command makes itself the latest for its key and changes no other key. */
  lemma LatestSnoc(wal: seq<Command>, c: Command, key: string)
    ensures Latest(wal + [c], key) == if c.key == key then Some(|wal|) else Latest(wal, key)
  {
    assert (wal + [c])[..|wal|] == wal;
  }

  /** A set makes the log hold its value, a remove makes it hold nothing, for that key only. */
  lemma ValueSnoc(wal: seq<Command>, c: Command, key: string)
    ensures Value(wal + [c], key) ==
      if c.key != key then Value(wal, key) else if c.Set? then Some(c.value) else None
  {
    LatestSnoc(wal, c, key);
  }

  class KvStore {
    var data: map<string, Pointer>
    /** The commands in the log, oldest first. */
    var wal: seq<Command>

    ghost predicate Valid()
      reads this
    {
      Indexed(data, wal)
    }

    constructor Init(log: seq<Command>)
      ensures data == map[] && wal == log
    {
      data := map[];
      wal := log;
    }

    /** The log's `append`: the command goes at the end and the returned position names its place. */
    method Append(cmd: Command) returns (p: Pointer)
      modifies this`wal
      ensures wal == old(wal) + [cmd] && p == Pointer(|old(wal)|, cmd.key)
    {
      p := Pointer(|wal|, cmd.key);
      wal := wal + [cmd];
    }

    /** `set`: log the command, then point the key at it. */
    method Set(key: string, value: string) returns (r: Result<(), KvError>)
      requires Valid()
      modifies this
      ensures Valid() && r == Ok(())
      ensures wal == old(wal) + [Command.Set(key, value)]
      ensures data == old(data)[key := Pointer(|old(wal)|, key)]
      ensures forall k :: Value(wal, k) == if k == key then Some(value) else Value(old(wal), k)
    {
      ghost var w := wal;
      var p := Append(Command.Set(key, value));
      data := data[p.key := p];
      forall k ensures Value(wal, k) == if k == key then Some(value) else Value(w, k) {
        ValueSnoc(w, Command.Set(key, value), k);
      }
      forall k | k in data ensures data[k].key == k && Latest(wal, k) == Some(data[k].pos) {
        LatestSnoc(w, Command.Set(key, value), k);
      }
      r := Ok(());
    }

    /** `get`: a key not in the index holds nothing; otherwise read the command the pointer
      * names, failing if the log has nothing there. */
    method Get(key: string) returns (r: Result<Option<string>, KvError>)
      ensures key !in data ==> r == Ok(None)
      ensures key in data && data[key].pos >= |wal| ==> r == Err(DataNotFound(key))
      ensures Valid() ==> r == Ok(Value(wal, key))
    {
      if key in data {
        var p := data[key];
        if p.pos < |wal| {
          match wal[p.pos]
          case Set(_, v) => r := Ok(Some(v));
          case Remove(_) => r := Ok(None);
        } else {
          r := Err(DataNotFound(key));
        }
      } else {
        r := Ok(None);
      }
    }

    /** `remove`: a key in the index is dropped from it and a tombstone is logged; a key not in
      * the index is an error and nothing is logged. */
    method Remove(key: string) returns (r: Result<(), KvError>)
      requires Valid()
      modifies this
      ensures Valid()
      ensures r.Err? <==> key !in old(data)
      ensures r.Err? ==> r.error == KeyNotFound(key) && data == old(data) && wal == old(wal)
      ensures r.Ok? ==> data == old(data) - {key} && wal == old(wal) + [Command.Remove(key)]
      ensures forall k :: Value(wal, k) == if k == key then None else Value(old(wal), k)
    {
      if key in data {
        ghost var w := wal;
        data := data - {key};
        var _ := Append(Command.Remove(key));
        forall k ensures Value(wal, k) == if k == key then None else Value(w, k) {
          ValueSnoc(w, Command.Remove(key), k);
        }
        forall k | k in data ensures data[k].key == k && Latest(wal, k) == Some(data[k].pos) {
          LatestSnoc(w, Command.Remove(key), k);
        }
        r := Ok(());
      } else {
        r := Err(KeyNotFound(key));
      }
    }
  }

  /** `open`: every command of the log, in order, points its key at itself, so later commands
    * overwrite earlier ones and a key whose last command is a remove is indexed again. */
  method Open(log: seq<Command>) returns (store: KvStore)
    ensures fresh(store) && store.Valid() && store.wal == log
    ensures forall k :: k in store.data <==> Latest(log, k).Some?
  {
    store := new KvStore.Init(log);
    var i := 0;
    while i < |log|
      invariant 0 <= i <= |log| && store.wal == log
      invariant Indexed(store.data, log[..i])
      invariant forall k :: k in store.data <==> Latest(log[..i], k).Some?
    {
      assert log[..i + 1] == log[..i] + [log[i]];
      forall k ensures Latest(log[..i + 1], k) == if log[i].key == k then Some(i) else Latest(log[..i], k) {
        LatestSnoc(log[..i], log[i], k);
      }
      store.data := store.data[log[i].key := Pointer(i, log[i].key)];
      i := i + 1;
    }
    assert log[..i] == log;
  }

  /** The engine's shared store: every call goes to the inner store under its lock. */
  class SharedKvStore {
    const inner: KvStore

    constructor (inner: KvStore)
      ensures this.inner == inner
    {
      this.inner := inner;
    }

    method Set(key: string, value: string) returns (r: Result<(), KvError>)
      requires inner.Valid()
      modifies inner
      ensures inner.Valid() && r == Ok(())
      ensures inner.wal == old(inner.wal) + [Command.Set(key, value)]
      ensures inner.data == old(inner.data)[key := Pointer(|old(inner.wal)|, key)]
    {
      r := inner.Set(key, value);
    }

    method Get(key: string) returns (r: Result<Option<string>, KvError>)
      ensures inner.Valid() ==> r == Ok(Value(inner.wal, key))
    {
      r := inner.Get(key);
    }

    method Remove(key: string) returns (r: Result<(), KvError>)
      requires inner.Valid()
      modifies inner
      ensures inner.Valid()
      ensures r.Err? <==> key !in old(inner.data)
      ensures r.Ok? ==> inner.data == old(inner.data) - {key}
      ensures r.Ok? ==> inner.wal == old(inner.wal) + [Command.Remove(key)]
      ensures r.Err? ==> inner.data == old(inner.data) && inner.wal == old(inner.wal)
    {
      r := inner.Remove(key);
    }
  }

  /** A key whose last logged command is a remove reads as nothing after a reopen, even though
    * the index holds it again. */
  lemma TombstoneReadsNothing(log: seq<Command>, key: string)
    requires Latest(log, key).Some? && log[Latest(log, key).value].Remove?
    ensures Value(log, key) == None
  {
  }

  /** The value the log holds for a key is that of its last set, when no remove follows it. */
  lemma {:induction false} LastSetWins(wal: seq<Command>, i: nat)
    requires i < |wal| && wal[i].Set?
    requires forall j :: i < j < |wal| ==> wal[j].key != wal[i].key
    ensures Value(wal, wal[i].key) == Some(wal[i].value)
    decreases |wal|
  {
    if i < |wal| - 1 {
      var w := wal[..|wal| - 1];
      assert wal == w + [wal[|wal| - 1]];
      ValueSnoc(w, wal[|wal| - 1], wal[i].key);
      LastSetWins(w, i);
    }
  }
}
