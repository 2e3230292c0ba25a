/**
 The open-addressing slot table of the native handle index, as a value.

 `WellFormed` is the invariant that makes probing correct: every full slot is reached from its own
 hash without crossing an empty slot. `Bindings` is the partial map the table stands for.
 */
module SlotTable {
  import opened Bytes
  import opened Probing

  type Key = seq<byte>
  type HashFn = Key -> uint64

  datatype SlotState = Empty | Full | Tombstone

  datatype Slot = Slot(state: SlotState, key: Key, handle: int, ctrl: nat, hash: nat, generation: nat)

  const EMPTY_SLOT := Slot(Empty, [], 0, 0, 0, 0)

  /** The 7-bit fingerprint kept beside each slot; zero is reserved. */
  function CtrlFromHash(hash: uint64): (c: nat)
    ensures 1 <= c <= 127
  {
    var c := hash / 0x200_0000_0000_0000;
    if c % 128 == 0 then 1 else c % 128
  }

  /** Probe number d of a search from `hash` lands on slot i and crosses no empty slot on its way. */
  ghost predicate ReachedBy(slots: seq<Slot>, hash: nat, d: nat, i: nat) {
    && d < |slots|
    && ProbeSlot(hash, d, |slots|) == i
    && forall e: nat :: e < d ==> !slots[ProbeSlot(hash, e, |slots|)].state.Empty?
  }

  ghost predicate Reachable(slots: seq<Slot>, hash: nat, i: nat) {
    exists d: nat :: ReachedBy(slots, hash, d, i)
  }

  ghost predicate DistinctKeys(slots: seq<Slot>) {
    forall i, j ::
      (0 <= i < |slots| && 0 <= j < |slots| && slots[i].state.Full? && slots[j].state.Full?
       && slots[i].key == slots[j].key) ==> i == j
  }

  ghost predicate SlotsReachable(slots: seq<Slot>, hashOf: HashFn) {
    forall i :: 0 <= i < |slots| && slots[i].state.Full? ==>
                  && slots[i].key != []
                  && slots[i].hash == hashOf(slots[i].key)
                  && slots[i].ctrl == CtrlFromHash(hashOf(slots[i].key))
                  && Reachable(slots, slots[i].hash, i)
  }

  ghost predicate WellFormed(slots: seq<Slot>, hashOf: HashFn) {
    && IsPow2(|slots|)
    && DistinctKeys(slots)
    && SlotsReachable(slots, hashOf)
  }

  ghost predicate HasEmpty(slots: seq<Slot>) {
    exists i :: 0 <= i < |slots| && slots[i].state.Empty?
  }

  ghost predicate Holds(slots: seq<Slot>, i: int, key: Key) {
    0 <= i < |slots| && slots[i].state.Full? && slots[i].key == key
  }

  ghost predicate LiveHandle(slots: seq<Slot>, handle: int) {
    exists i :: 0 <= i < |slots| && slots[i].state.Full? && slots[i].handle == handle
  }

  /** The partial map from key to handle that a table represents. */
  ghost function Bindings(slots: seq<Slot>): map<Key, int>
    requires DistinctKeys(slots)
  {
    map i | 0 <= i < |slots| && slots[i].state.Full? :: slots[i].key := slots[i].handle
  }

  ghost function LookupIn(m: map<Key, int>, key: Key): int {
    if key in m then m[key] else -1
  }

  lemma BoundSlot(slots: seq<Slot>, key: Key) returns (i: nat)
    requires DistinctKeys(slots)
    requires key in Bindings(slots)
    ensures Holds(slots, i, key)
    ensures slots[i].handle == Bindings(slots)[key]
  {
    i :| 0 <= i < |slots| && slots[i].state.Full? && slots[i].key == key;
  }

  lemma SlotBinds(slots: seq<Slot>, i: int, key: Key)
    requires DistinctKeys(slots)
    requires Holds(slots, i, key)
    ensures key in Bindings(slots)
    ensures Bindings(slots)[key] == slots[i].handle
  {
  }

  lemma StoredHash(slots: seq<Slot>, hashOf: HashFn, i: nat)
    requires WellFormed(slots, hashOf)
    requires i < |slots| && slots[i].state.Full?
    ensures slots[i].key != []
    ensures slots[i].hash == hashOf(slots[i].key)
  {
  }

  ghost function SlotsIn(slots: seq<Slot>, st: SlotState): set<nat> {
    set i: nat | i < |slots| && slots[i].state == st
  }

  lemma StatesPartition(slots: seq<Slot>)
    ensures |SlotsIn(slots, Full)| + |SlotsIn(slots, Tombstone)| + |SlotsIn(slots, Empty)| == |slots|
  {
    var f, t, e := SlotsIn(slots, Full), SlotsIn(slots, Tombstone), SlotsIn(slots, Empty);
    assert Below(|slots|) == f + t + e;
    assert |f + t| == |f| + |t|;
    assert |f + t + e| == |f + t| + |e|;
  }

  lemma FullPlusTombBelowCapacity(slots: seq<Slot>)
    requires |SlotsIn(slots, Full)| + |SlotsIn(slots, Tombstone)| < |slots|
    ensures HasEmpty(slots)
  {
    StatesPartition(slots);
    var i :| i in SlotsIn(slots, Empty);
  }

  // ---- searching ----

  /** A search that meets an empty slot has passed every place the key could be. */
  lemma EmptyEndsSearch(slots: seq<Slot>, hashOf: HashFn, key: Key, p: nat, i: int)
    requires WellFormed(slots, hashOf)
    requires p < |slots|
    requires forall e: nat :: e < p ==> !Holds(slots, ProbeSlot(hashOf(key), e, |slots|), key)
    requires slots[ProbeSlot(hashOf(key), p, |slots|)].state.Empty?
    ensures !Holds(slots, i, key)
  {
    if 0 <= i < |slots| && slots[i].state.Full? {
      var hash := slots[i].hash;
      var d: nat :| ReachedBy(slots, hash, d, i);
      assert p < d ==> hash != hashOf(key);
      assert d == p ==> hash != hashOf(key);
    }
  }

  /** A search of every probe that never meets the key proves it absent. */
  lemma FullSearchRulesOutKey(slots: seq<Slot>, hashOf: HashFn, key: Key, i: int)
    requires WellFormed(slots, hashOf)
    requires forall e: nat :: e < |slots| ==> !Holds(slots, ProbeSlot(hashOf(key), e, |slots|), key)
    ensures !Holds(slots, i, key)
  {
    if 0 <= i < |slots| && slots[i].state.Full? {
      var d: nat :| ReachedBy(slots, slots[i].hash, d, i);
    }
  }

  // ---- updating ----

  ghost predicate CanHost(slots: seq<Slot>, hashOf: HashFn, key: Key, i: int) {
    && 0 <= i < |slots|
    && !slots[i].state.Full?
    && Reachable(slots, hashOf(key), i)
  }

  /** Slot i is the first slot on the probe path of `hash` that is not full. */
  ghost predicate FirstFree(slots: seq<Slot>, hash: nat, i: int) {
    && 0 <= i < |slots|
    && !slots[i].state.Full?
    && exists d: nat :: d < |slots| && ProbeSlot(hash, d, |slots|) == i && AllFull(slots, hash, d)
  }

  ghost predicate AllFull(slots: seq<Slot>, hash: nat, d: nat)
    requires |slots| > 0
  {
    forall e: nat :: e < d ==> slots[ProbeSlot(hash, e, |slots|)].state.Full?
  }

  lemma FirstFreeCanHost(slots: seq<Slot>, hashOf: HashFn, key: Key, i: int)
    requires FirstFree(slots, hashOf(key), i)
    ensures CanHost(slots, hashOf, key, i)
  {
    var hash := hashOf(key);
    var d: nat :| d < |slots| && ProbeSlot(hash, d, |slots|) == i && AllFull(slots, hash, d);
    assert ReachedBy(slots, hash, d, i);
  }

  lemma FirstFreeUnique(slots: seq<Slot>, hash: nat, i: int, j: int)
    requires FirstFree(slots, hash, i) && FirstFree(slots, hash, j)
    ensures i == j
  {
    var d: nat :| d < |slots| && ProbeSlot(hash, d, |slots|) == i && AllFull(slots, hash, d);
    var e: nat :| e < |slots| && ProbeSlot(hash, e, |slots|) == j && AllFull(slots, hash, e);
  }

  function FullSlot(key: Key, handle: int, hash: uint64, generation: nat): Slot {
    Slot(Full, key, handle, CtrlFromHash(hash), hash, generation)
  }

  ghost predicate NoNewEmpty(a: seq<Slot>, b: seq<Slot>) {
    |a| == |b| && forall i :: 0 <= i < |a| && b[i].state.Empty? ==> a[i].state.Empty?
  }

  lemma ReachableMonotone(a: seq<Slot>, b: seq<Slot>, hash: nat, i: nat)
    requires NoNewEmpty(a, b)
    requires Reachable(a, hash, i)
    ensures Reachable(b, hash, i)
  {
    var d: nat :| ReachedBy(a, hash, d, i);
    assert ReachedBy(b, hash, d, i);
  }

  lemma InsertKeepsTable(slots: seq<Slot>, hashOf: HashFn, i: nat, s: Slot)
    requires WellFormed(slots, hashOf)
    requires s.state.Full? && s.key != [] && s.hash == hashOf(s.key) && s.ctrl == CtrlFromHash(hashOf(s.key))
    requires CanHost(slots, hashOf, s.key, i)
    requires s.key !in Bindings(slots)
    ensures WellFormed(slots[i := s], hashOf)
    ensures Bindings(slots[i := s]) == Bindings(slots)[s.key := s.handle]
    ensures SlotsIn(slots[i := s], Full) == SlotsIn(slots, Full) + {i}
    ensures SlotsIn(slots[i := s], Tombstone) == SlotsIn(slots, Tombstone) - {i}
  {
    var b := slots[i := s];
    forall j | 0 <= j < |slots| && slots[j].state.Full?
      ensures slots[j].key in Bindings(slots)
    {
    }
    forall j | 0 <= j < |b| && b[j].state.Full?
      ensures Reachable(b, b[j].hash, j)
    {
      ReachableMonotone(slots, b, b[j].hash, j);
    }
    BindingsAfterInsert(slots, i, s);
  }

  lemma BindingsAfterInsert(slots: seq<Slot>, i: nat, s: Slot)
    requires DistinctKeys(slots)
    requires i < |slots| && !slots[i].state.Full? && s.state.Full?
    requires s.key !in Bindings(slots)
    ensures DistinctKeys(slots[i := s])
    ensures Bindings(slots[i := s]) == Bindings(slots)[s.key := s.handle]
  {
    var b := slots[i := s];
    forall j | 0 <= j < |slots| && slots[j].state.Full?
      ensures slots[j].key != s.key
    {
      SlotBinds(slots, j, slots[j].key);
    }
    assert Holds(b, i, s.key);
    SlotBinds(b, i, s.key);
    forall k | k != s.key
      ensures SameBinding(slots, b, k)
    {
      if k in Bindings(b) {
        var j := BoundSlot(b, k);
        SlotBinds(slots, j, k);
      } else if k in Bindings(slots) {
        var j := BoundSlot(slots, k);
        SlotBinds(b, j, k);
      }
    }
    var m := Bindings(slots)[s.key := s.handle];
    forall k
      ensures k in m <==> k in Bindings(b)
      ensures k in m ==> m[k] == Bindings(b)[k]
    {
      assert k == s.key || SameBinding(slots, b, k);
    }
  }

  ghost predicate SameBinding(a: seq<Slot>, b: seq<Slot>, k: Key)
    requires DistinctKeys(a) && DistinctKeys(b)
  {
    && (k in Bindings(a) <==> k in Bindings(b))
    && (k in Bindings(a) ==> Bindings(a)[k] == Bindings(b)[k])
  }

  lemma RemoveKeepsTable(slots: seq<Slot>, hashOf: HashFn, i: nat, t: Slot)
    requires WellFormed(slots, hashOf)
    requires i < |slots| && slots[i].state.Full? && t.state.Tombstone?
    ensures WellFormed(slots[i := t], hashOf)
    ensures Bindings(slots[i := t]) == Bindings(slots) - {slots[i].key}
    ensures SlotsIn(slots[i := t], Full) == SlotsIn(slots, Full) - {i}
    ensures SlotsIn(slots[i := t], Tombstone) == SlotsIn(slots, Tombstone) + {i}
  {
    var b := slots[i := t];
    forall j | 0 <= j < |b| && b[j].state.Full?
      ensures Reachable(b, b[j].hash, j)
    {
      ReachableMonotone(slots, b, b[j].hash, j);
    }
    BindingsAfterRemove(slots, i, t);
  }

  lemma BindingAfterRemove(slots: seq<Slot>, i: nat, t: Slot, k: Key)
    requires DistinctKeys(slots)
    requires i < |slots| && slots[i].state.Full? && !t.state.Full?
    ensures DistinctKeys(slots[i := t])
    ensures k == slots[i].key ==> k !in Bindings(slots[i := t])
    ensures k != slots[i].key ==> SameBinding(slots, slots[i := t], k)
  {
    hide Bindings;
    var b := slots[i := t];
    if k in Bindings(b) {
      var j := BoundSlot(b, k);
      SlotBinds(slots, j, k);
      SlotBinds(b, j, k);
    } else if k in Bindings(slots) && k != slots[i].key {
      var j := BoundSlot(slots, k);
      SlotBinds(b, j, k);
    }
  }

  lemma BindingsAfterRemove(slots: seq<Slot>, i: nat, t: Slot)
    requires DistinctKeys(slots)
    requires i < |slots| && slots[i].state.Full? && !t.state.Full?
    ensures DistinctKeys(slots[i := t])
    ensures Bindings(slots[i := t]) == Bindings(slots) - {slots[i].key}
  {
    var b := slots[i := t];
    forall k
      ensures k == slots[i].key ==> k !in Bindings(b)
      ensures k != slots[i].key ==> SameBinding(slots, b, k)
    {
      hide Bindings;
      BindingAfterRemove(slots, i, t, k);
    }
  }

  /** The number of full slots is the number of bound keys. */
  lemma {:induction false} FullSlotsCountKeys(slots: seq<Slot>)
    requires DistinctKeys(slots)
    ensures |SlotsIn(slots, Full)| == |Bindings(slots)|
    decreases |SlotsIn(slots, Full)|
  {
    if Bindings(slots) == map[] {
      forall i: nat | i < |slots|
        ensures !slots[i].state.Full?
      {
        if slots[i].state.Full? {
          SlotBinds(slots, i, slots[i].key);
        }
      }
      assert SlotsIn(slots, Full) == {};
    } else {
      var k :| k in Bindings(slots);
      var i := BoundSlot(slots, k);
      assert i in SlotsIn(slots, Full);
      var b := slots[i := EMPTY_SLOT];
      BindingsAfterRemove(slots, i, EMPTY_SLOT);
      assert SlotsIn(b, Full) == SlotsIn(slots, Full) - {i};
      FullSlotsCountKeys(b);
      SlotBinds(slots, i, slots[i].key);
      MapMinusKey(Bindings(slots), slots[i].key);
    }
  }

  lemma MapMinusKey<K, V>(m: map<K, V>, k: K)
    requires k in m
    ensures |m| == |m - {k}| + 1
  {
    assert m.Keys == (m - {k}).Keys + {k};
    assert |m| == |m.Keys| && |m - {k}| == |(m - {k}).Keys|;
  }
}
