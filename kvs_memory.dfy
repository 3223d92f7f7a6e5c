// The first key-value store: an in-memory map from keys to values, with no persistence.
module KvsMemory {
  import opened Wrappers

  /** The value a map holds for a key, if any. */
  function Lookup(data: map<string, string>, key: string): (r: Option<string>)
    ensures r.Some? <==> key in data
    ensures r.Some? ==> r.value == data[key]
  {
    if key in data then Some(data[key]) else None
  }

  class KvStore {
    var data: map<string, string>

    /** `new`: an empty store. */
    constructor ()
      ensures data == map[]
    {
      data := map[];
    }

    /** `set`: insert or overwrite the key; every other key keeps its value. */
    method Set(key: string, value: string)
      modifies this
      ensures data == old(data)[key := value]
    {
      data := data[key := value];
    }

    /** `get`: the key's value, `None` for a key never set or since removed. */
    method Get(key: string) returns (r: Option<string>)
      ensures r.Some? <==> key in data
      ensures r.Some? ==> r.value == data[key]
    {
      if key in data {
        r := Some(data[key]);
      } else {
        r := None;
      }
    }

    /** `remove`: forget the key; removing an absent key changes nothing. */
    method Remove(key: string)
      modifies this
      ensures data == old(data) - {key}
    {
      data := data - {key};
    }
  }

  /** A read after a write sees the written value, and a write leaves other keys as they were. */
  lemma SetThenGet(data: map<string, string>, key: string, value: string, other: string)
    ensures Lookup(data[key := value], key) == Some(value)
    ensures other != key ==> Lookup(data[key := value], other) == Lookup(data, other)
  {
  }

  /** After a remove the key is absent, and other keys are untouched. */
  lemma RemoveThenGet(data: map<string, string>, key: string, other: string)
    ensures Lookup(data - {key}, key) == None
    ensures other != key ==> Lookup(data - {key}, other) == Lookup(data, other)
    ensures key !in data ==> data - {key} == data
  {
  }

  /** Two sets of one key keep only the second value. */
  lemma SetOverwrites(data: map<string, string>, key: string, v1: string, v2: string)
    ensures data[key := v1][key := v2] == data[key := v2]
  {
  }
}
