/** A directory's read path: Bloom gate, evicting registry and entry index, against the history of its operations. */
module ReadPath {
  import opened Bytes
  import opened Bloom
  import Registry

  /** What a caller does to a directory. */
  datatype Event<V> = Write(name: Key, value: V) | Delete(name: Key) | Read(name: Key)

  /** The last value written under a name and not deleted since. */
  function LastWritten<V>(history: seq<Event<V>>, name: Key): Option<V> {
    if history == [] then None
    else
      match history[|history| - 1]
      case Write(n, v) => if n == name then Some(v) else LastWritten(history[..|history| - 1], name)
      case Delete(n) => if n == name then None else LastWritten(history[..|history| - 1], name)
      case Read(_) => LastWritten(history[..|history| - 1], name)
  }

  lemma LastAfter<V>(history: seq<Event<V>>, e: Event<V>, name: Key)
    ensures LastWritten(history + [e], name) ==
            match e
            case Write(n, v) => if n == name then Some(v) else LastWritten(history, name)
            case Delete(n) => if n == name then None else LastWritten(history, name)
            case Read(_) => LastWritten(history, name)
  {
    assert (history + [e])[..|history|] == history;
  }

  /** The entry index holds exactly the live values of a history. */
  ghost predicate Tracks<V(!new)>(entries: map<Key, V>, history: seq<Event<V>>) {
    && (forall k :: k in entries <==> LastWritten(history, k).Some?)
    && forall k :: k in entries ==> LastWritten(history, k) == Some(entries[k])
  }

  lemma TracksAt<V(!new)>(entries: map<Key, V>, history: seq<Event<V>>, name: Key)
    requires Tracks(entries, history)
    ensures LastWritten(history, name) == if name in entries then Some(entries[name]) else None
  {
  }

  lemma TracksWrite<V(!new)>(entries: map<Key, V>, history: seq<Event<V>>, name: Key, value: V)
    requires Tracks(entries, history)
    ensures Tracks(entries[name := value], history + [Write(name, value)])
  {
    hide LastWritten;
    forall k
      ensures LastWritten(history + [Write(name, value)], k) ==
              if k == name then Some(value) else LastWritten(history, k)
    {
      LastAfter(history, Write(name, value), k);
    }
  }

  lemma TracksDelete<V(!new)>(entries: map<Key, V>, history: seq<Event<V>>, name: Key)
    requires Tracks(entries, history)
    ensures Tracks(entries - {name}, history + [Delete(name)])
  {
    hide LastWritten;
    forall k
      ensures LastWritten(history + [Delete(name)], k) == if k == name then None else LastWritten(history, k)
    {
      LastAfter(history, Delete(name), k);
    }
  }

  lemma TracksRead<V(!new)>(entries: map<Key, V>, history: seq<Event<V>>, name: Key)
    requires Tracks(entries, history)
    ensures Tracks(entries, history + [Read(name)])
  {
    hide LastWritten;
    forall k ensures LastWritten(history + [Read(name)], k) == LastWritten(history, k) {
      LastAfter(history, Read(name), k);
    }
  }

  class TDSDirectory<V(!new)> {
    const bloom: BloomFilter
    const registry: Registry.HybridRegistry<V>
    var entries: map<Key, V>
    ghost var history: seq<Event<V>>

    /** The parts do not overlap. */
    ghost predicate Separate()
      reads this, bloom, registry
    {
      && bloom.bits as object !in {this as object, bloom, registry, registry.records, registry.active}
      && registry.records as object != registry.active as object
    }

    ghost predicate Valid()
      reads this, bloom, bloom.bits, registry, registry.records, registry.active
    {
      && Separate()
      && bloom.Valid() && registry.Valid()
      && Tracks(entries, history)
      && entries.Keys <= bloom.added
      && (forall k :: k in registry.Cached() ==> k in entries && entries[k] == registry.Cached()[k])
    }

    constructor (bloomBits: nat, bloomHashes: nat, hashes: Hashes, capacity: nat,
                 score: (Registry.Record, real) -> real)
      requires bloomBits > 0 && bloomHashes > 0 && capacity > 0
      ensures Valid() && history == [] && entries == map[]
    {
      bloom := new BloomFilter(bloomBits, bloomHashes, hashes);
      registry := new Registry.HybridRegistry(capacity, score);
      entries, history := map[], [];
    }

    method WriteEntry(name: Key, value: V, now: real)
      requires Valid()
      modifies this, bloom, bloom.bits, registry, registry.records, registry.active
      ensures Valid() && history == old(history) + [Write(name, value)]
      ensures entries == old(entries)[name := value]
    {
      hide Tracks, bloom.Valid, registry.Valid, registry.Usage, Registry.Victim, Registry.Packed;
      TracksWrite(entries, history, name, value);
      entries := entries[name := value];
      history := history + [Write(name, value)];
      bloom.Add(name);
      registry.Put(name, value, now);
    }

    /** The last value written under the name and not deleted since, or None where a KeyError is raised. */
    method ReadValue(name: Key, now: real) returns (r: Option<V>)
      requires Valid()
      modifies this, registry, registry.records, registry.active
      ensures Valid() && history == old(history) + [Read(name)] && entries == old(entries)
      ensures r == LastWritten(old(history), name)
    {
      hide Tracks, LastWritten, bloom.Valid, registry.Valid, registry.Usage, Registry.Victim, Registry.Packed;
      TracksAt(entries, history, name);
      TracksRead(entries, history, name);
      history := history + [Read(name)];
      var maybe := bloom.Contains(name);
      if !maybe {
        return None;
      }
      var cached := registry.Get(name, now);
      if cached.Some? {
        return cached;
      }
      if name !in entries {
        return None;
      }
      registry.Put(name, entries[name], now);
      r := Some(entries[name]);
    }

    method DeleteEntry(name: Key)
      requires Valid()
      modifies this, registry, registry.records, registry.active
      ensures Valid() && history == old(history) + [Delete(name)]
      ensures entries == old(entries) - {name}
    {
      TracksDelete(entries, history, name);
      entries := entries - {name};
      history := history + [Delete(name)];
      registry.Remove(name);
    }
  }
}
