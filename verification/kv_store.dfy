/** The node store: a flat map from byte-string keys (digests, key paths) to
    byte-string records, shared by user values and internal-node records.

    Both in-memory stores of the source (`InMemoryKVStore`, `SimpleKVStore`)
    always succeed. The store trait lets `set` and `remove` fail, and the
    engine's error paths depend on that, so the model carries a set of
    `refused` keys: a write to one of them fails and changes nothing. The
    in-memory stores are the ones whose `refused` set is empty. */
module KVStore {
  import opened Wrappers
  import opened Bytes

  datatype Store = Store(entries: map<Bytes, Bytes>, refused: set<Bytes>)

  datatype StoreError = WriteRefused(key: Bytes)

  /** `new`: an empty in-memory store. */
  function Empty(): (s: Store)
    ensures forall k :: Get(s, k) == None
    ensures s.refused == {}
  {
    Store(map[], {})
  }

  /** `get`: a copy of the record stored under `key`, if any. */
  function Get(s: Store, key: Bytes): Option<Bytes>
  {
    if key in s.entries then Some(s.entries[key]) else None
  }

  /** `set`: insert or overwrite. */
  function Set(s: Store, key: Bytes, value: Bytes): (r: Result<Store, StoreError>)
    ensures r.Success? <==> key !in s.refused
    ensures r.Failure? ==> r.error == WriteRefused(key)
    ensures r.Success? ==> Get(r.value, key) == Some(value)
    ensures r.Success? ==> forall k | k != key :: Get(r.value, k) == Get(s, k)
    ensures r.Success? ==> r.value.refused == s.refused
  {
    if key in s.refused then Failure(WriteRefused(key))
    else Success(s.(entries := s.entries[key := value]))
  }

  /** `remove`: delete the record under `key`, if any. */
  function Remove(s: Store, key: Bytes): (r: Result<Store, StoreError>)
    ensures r.Success? <==> key !in s.refused
    ensures r.Failure? ==> r.error == WriteRefused(key)
    ensures r.Success? ==> Get(r.value, key) == None
    ensures r.Success? ==> forall k | k != key :: Get(r.value, k) == Get(s, k)
    ensures r.Success? ==> r.value.refused == s.refused
  {
    if key in s.refused then Failure(WriteRefused(key))
    else Success(s.(entries := s.entries - {key}))
  }

  /** A store that refuses nothing (the in-memory stores) never returns an
      error and keeps refusing nothing. */
  lemma InMemoryNeverFails(s: Store, key: Bytes, value: Bytes)
    requires s.refused == {}
    ensures Set(s, key, value).Success? && Set(s, key, value).value.refused == {}
    ensures Remove(s, key).Success? && Remove(s, key).value.refused == {}
  {
  }

  /** Last write wins: a second `set` on a key replaces the first. */
  lemma LastWriteWins(s: Store, key: Bytes, v1: Bytes, v2: Bytes)
    requires Set(s, key, v1).Success?
    ensures Set(Set(s, key, v1).value, key, v2) == Set(s, key, v2)
  {
    assert s.entries[key := v1][key := v2] == s.entries[key := v2];
  }

  /** Removing an absent key succeeds and leaves the store as it was. */
  lemma RemoveAbsentIsNoOp(s: Store, key: Bytes)
    requires key !in s.refused
    requires Get(s, key) == None
    ensures Remove(s, key) == Success(s)
  {
    assert s.entries - {key} == s.entries;
  }

  /** `remove` undoes a `set` of a key that was absent. */
  lemma RemoveUndoesSet(s: Store, key: Bytes, value: Bytes)
    requires key !in s.refused
    requires Get(s, key) == None
    ensures Remove(Set(s, key, value).value, key) == Success(s)
  {
    assert s.entries[key := value] - {key} == s.entries;
  }
}
