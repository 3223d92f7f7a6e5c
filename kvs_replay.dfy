// The second key-value store: the map is rebuilt at open time by replaying a write-ahead log
// of commands, and every successful command is counted by a sequence number.
module KvsReplay {
  import opened Wrappers

  datatype Command = Set(key: string, value: string) | Remove(key: string)

  datatype KvError = KeyNotFound(key: string)

  /** The in-memory part of the store: the map and the count of commands played. */
  datatype State = State(data: map<string, string>, seqId: nat)

  const Empty: State := State(map[], 0)

  /** `play`: a set inserts or overwrites, a remove deletes a present key and fails on an
    * absent one; only a command that succeeds is counted. */
  function Play(s: State, cmd: Command): (r: Result<State, KvError>)
    ensures r.Err? <==> cmd.Remove? && cmd.key !in s.data
    ensures r.Err? ==> r.error == KeyNotFound(cmd.key)
    ensures r.Ok? ==> r.value.seqId == s.seqId + 1
    ensures r.Ok? && cmd.Set? ==> r.value.data == s.data[cmd.key := cmd.value]
    ensures r.Ok? && cmd.Remove? ==> r.value.data == s.data - {cmd.key}
  {
    match cmd
    case Set(k, v) => Ok(State(s.data[k := v], s.seqId + 1))
    case Remove(k) =>
      if k in s.data then Ok(State(s.data - {k}, s.seqId + 1)) else Err(KeyNotFound(k))
  }

  /** The replay loop of `open`: play every command in order, stopping at the first failure. */
  function Replay(s: State, cmds: seq<Command>): Result<State, KvError>
    decreases |cmds|
  {
    if cmds == [] then Ok(s)
    else
      match Play(s, cmds[0])
      case Err(e) => Err(e)
      case Ok(t) => Replay(t, cmds[1..])
  }

  /** Replaying one more command is playing it on the replay of the others. */
  lemma {:induction false} ReplaySnoc(s: State, cmds: seq<Command>, c: Command)
    ensures Replay(s, cmds).Err? ==> Replay(s, cmds + [c]) == Replay(s, cmds)
    ensures Replay(s, cmds).Ok? ==> Replay(s, cmds + [c]) == Play(Replay(s, cmds).value, c)
    decreases |cmds|
  {
    if cmds == [] {
      assert [] + [c] == [c];
      assert [c][1..] == [];
    } else {
      assert (cmds + [c])[0] == cmds[0];
      assert (cmds + [c])[1..] == cmds[1..] + [c];
      if Play(s, cmds[0]).Ok? {
        ReplaySnoc(Play(s, cmds[0]).value, cmds[1..], c);
      }
    }
  }

  /** The sequence number after a successful replay counts the commands replayed. */
  lemma {:induction false} ReplayCounts(s: State, cmds: seq<Command>)
    requires Replay(s, cmds).Ok?
    ensures Replay(s, cmds).value.seqId == s.seqId + |cmds|
    decreases |cmds|
  {
    if cmds != [] {
      ReplayCounts(Play(s, cmds[0]).value, cmds[1..]);
    }
  }

  /** A log of sets alone always replays, and the last set of each key wins. */
  lemma {:induction false} ReplaySetsSucceed(s: State, cmds: seq<Command>, key: string)
    requires forall i :: 0 <= i < |cmds| ==> cmds[i].Set?
    ensures Replay(s, cmds).Ok?
    ensures (forall i :: 0 <= i < |cmds| ==> cmds[i].key != key) ==>
      (key in Replay(s, cmds).value.data <==> key in s.data) &&
      (key in s.data ==> Replay(s, cmds).value.data[key] == s.data[key])
    decreases |cmds|
  {
    if cmds != [] {
      ReplaySetsSucceed(Play(s, cmds[0]).value, cmds[1..], key);
    }
  }

  class KvStore {
    var seqId: nat
    var data: map<string, string>
    /** The commands in the write-ahead log, oldest first. */
    var wal: seq<Command>

    /** The in-memory state is exactly what replaying the log from empty gives. */
    ghost predicate Valid()
      reads this
    {
      Replay(Empty, wal) == Ok(State(data, seqId))
    }

    constructor Init(log: seq<Command>)
      ensures seqId == 0 && data == map[] && wal == log
    {
      seqId := 0;
      data := map[];
      wal := log;
    }

    /** `play` on the store's fields. */
    method PlayCommand(cmd: Command) returns (r: Result<(), KvError>)
      modifies this`data, this`seqId
      ensures Play(old(State(data, seqId)), cmd).Err? ==>
        r == Err(Play(old(State(data, seqId)), cmd).error) && data == old(data) && seqId == old(seqId)
      ensures Play(old(State(data, seqId)), cmd).Ok? ==>
        r == Ok(()) && State(data, seqId) == Play(old(State(data, seqId)), cmd).value
    {
      match cmd
      case Set(k, v) =>
        data := data[k := v];
        seqId := seqId + 1;
        r := Ok(());
      case Remove(k) =>
        if k in data {
          data := data - {k};
          seqId := seqId + 1;
          r := Ok(());
        } else {
          r := Err(KeyNotFound(k));
        }
    }

    /** `set`: play the command, then log it. */
    method Set(key: string, value: string) returns (r: Result<(), KvError>)
      requires Valid()
      modifies this
      ensures Valid() && r == Ok(())
      ensures data == old(data)[key := value] && seqId == old(seqId) + 1
      ensures wal == old(wal) + [Command.Set(key, value)]
    {
      var cmd := Command.Set(key, value);
      ReplaySnoc(Empty, wal, cmd);
      r := PlayCommand(cmd);
      wal := wal + [cmd];
    }

    /** `remove`: play the command and log it only if it succeeded, so a failed remove leaves
      * both the map and the log as they were. */
    method Remove(key: string) returns (r: Result<(), KvError>)
      requires Valid()
      modifies this
      ensures Valid()
      ensures r.Err? <==> key !in old(data)
      ensures r.Err? ==> r.error == KeyNotFound(key) && data == old(data) && wal == old(wal)
      ensures r.Ok? ==> data == old(data) - {key} && wal == old(wal) + [Command.Remove(key)]
    {
      var cmd := Command.Remove(key);
      ReplaySnoc(Empty, wal, cmd);
      r := PlayCommand(cmd);
      if r.Ok? {
        wal := wal + [cmd];
      }
    }

    /** `get`: a present key gives its value; an absent key is an error, never `Ok(None)`. */
    method Get(key: string) returns (r: Result<Option<string>, KvError>)
      ensures r.Ok? <==> key in data
      ensures r.Ok? ==> r.value == Some(data[key])
      ensures r.Err? ==> r.error == KeyNotFound(key)
    {
      if key in data {
        r := Ok(Some(data[key]));
      } else {
        r := Err(KeyNotFound(key));
      }
    }
  }

  /** `open`: replay the log into a fresh store; the first failing command aborts the open. */
  method Open(log: seq<Command>) returns (r: Result<KvStore, KvError>)
    ensures r.Err? <==> Replay(Empty, log).Err?
    ensures r.Err? ==> r.error == Replay(Empty, log).error
    ensures r.Ok? ==>
      fresh(r.value) && r.value.Valid() && r.value.wal == log &&
      State(r.value.data, r.value.seqId) == Replay(Empty, log).value
  {
    var store := new KvStore.Init(log);
    var i := 0;
    while i < |log|
      invariant 0 <= i <= |log| && store.wal == log
      invariant Replay(Empty, log[..i]) == Ok(State(store.data, store.seqId))
    {
      assert log[..i + 1] == log[..i] + [log[i]];
      ReplaySnoc(Empty, log[..i], log[i]);
      var played := store.PlayCommand(log[i]);
      if played.Err? {
        ReplayPrefixErr(log, i + 1);
        return Err(played.error);
      }
      i := i + 1;
    }
    assert log[..i] == log;
    return Ok(store);
  }

  /** A prefix that fails to replay makes the whole log fail the same way. */
  lemma ReplayPrefixErr(log: seq<Command>, n: nat)
    requires n <= |log| && Replay(Empty, log[..n]).Err?
    ensures Replay(Empty, log) == Replay(Empty, log[..n])
    decreases |log| - n
  {
    if n < |log| {
      assert log[..n + 1] == log[..n] + [log[n]];
      ReplaySnoc(Empty, log[..n], log[n]);
      ReplayPrefixErr(log, n + 1);
    } else {
      assert log[..n] == log;
    }
  }
}
