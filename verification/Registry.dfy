/**
 The hot-entry registry: a fixed table of scored slots, two indexes over it and a handle table behind it.

 The decayed score that picks a victim is a parameter, an arbitrary function of a slot's use and the time.
 */
module Registry {
  import opened Bytes

  type Key = string

  datatype Record = Record(count: real, time: real, handle: nat)

  const BLANK := Record(0.0, 0.0, 0)

  /** The registry's fields as one value. */
  datatype Table<V> = Table(records: seq<Record>, active: seq<bool>, keyToSlot: map<Key, nat>,
                            slotToKey: seq<Option<Key>>, handles: map<nat, V>, nextHandle: nat, size: nat)

  // ---- the invariant ----

  ghost predicate Shaped<V>(t: Table<V>) {
    |t.records| == |t.active| == |t.slotToKey| > 0 && t.nextHandle >= 1
  }

  /** A slot in use: its key leads back to it and its handle is live; a slot not in use is blank. */
  ghost predicate SlotOk<V>(t: Table<V>, i: nat)
    requires Shaped(t) && i < |t.records|
  {
    if t.active[i] then
      && t.slotToKey[i].Some?
      && t.slotToKey[i].value in t.keyToSlot && t.keyToSlot[t.slotToKey[i].value] == i
      && 1 <= t.records[i].handle < t.nextHandle && t.records[i].handle in t.handles
    else
      t.slotToKey[i].None? && t.records[i].handle == 0
  }

  ghost predicate KeyOk<V>(t: Table<V>, k: Key)
    requires Shaped(t) && k in t.keyToSlot
  {
    var i := t.keyToSlot[k];
    i < |t.records| && t.active[i] && t.slotToKey[i] == Some(k)
  }

  /** A live handle belongs to a slot in use. */
  ghost predicate HandleOk<V>(t: Table<V>, h: nat)
    requires Shaped(t)
  {
    exists i :: 0 <= i < |t.records| && t.active[i] && t.records[i].handle == h
  }

  ghost predicate SlotsOk<V>(t: Table<V>) {
    Shaped(t) && forall i :: 0 <= i < |t.records| ==> SlotOk(t, i)
  }

  ghost predicate KeysOk<V>(t: Table<V>) {
    Shaped(t) && forall k :: k in t.keyToSlot ==> KeyOk(t, k)
  }

  ghost predicate HandlesOk<V>(t: Table<V>) {
    Shaped(t) && forall h :: h in t.handles ==> HandleOk(t, h)
  }

  ghost predicate Distinct<V>(t: Table<V>) {
    && Shaped(t)
    && forall i, j :: 0 <= i < j < |t.records| && t.active[i] && t.active[j] ==>
                        t.records[i].handle != t.records[j].handle
  }

  /** Keys and slots in use correspond one to one, and so do slots in use and live handles. */
  ghost predicate Inv<V>(t: Table<V>) {
    Shaped(t) && SlotsOk(t) && KeysOk(t) && HandlesOk(t) && Distinct(t) && t.size == |t.keyToSlot|
  }

  /** What the registry remembers. */
  ghost function Contents<V>(t: Table<V>): map<Key, V>
    requires Inv(t)
  {
    map k | k in t.keyToSlot :: ValueOf(t, k)
  }

  ghost function ValueOf<V>(t: Table<V>, k: Key): V
    requires Inv(t) && k in t.keyToSlot
  {
    assert KeyOk(t, k);
    assert SlotOk(t, t.keyToSlot[k]);
    t.handles[t.records[t.keyToSlot[k]].handle]
  }

  /** How often a key has been used, and when last: what its score is made of. */
  datatype Use = Use(count: real, time: real)

  ghost function UseOf<V>(t: Table<V>, k: Key): Use
    requires KeysOk(t) && k in t.keyToSlot
  {
    assert KeyOk(t, k);
    Use(t.records[t.keyToSlot[k]].count, t.records[t.keyToSlot[k]].time)
  }

  ghost function Uses<V>(t: Table<V>): map<Key, Use>
    requires KeysOk(t)
  {
    map k | k in t.keyToSlot :: UseOf(t, k)
  }

  // ---- the changes a registry makes ----

  function Evicted<V>(t: Table<V>, i: nat): Table<V>
    requires i < |t.records| && i < |t.active| && i < |t.slotToKey| && t.size > 0
  {
    t.(records := t.records[i := BLANK], active := t.active[i := false],
       keyToSlot := if t.slotToKey[i].Some? then t.keyToSlot - {t.slotToKey[i].value} else t.keyToSlot,
       slotToKey := t.slotToKey[i := None], handles := t.handles - {t.records[i].handle}, size := t.size - 1)
  }

  function Placed<V>(t: Table<V>, i: nat, k: Key, v: V, now: real): Table<V>
    requires i < |t.records| && i < |t.active| && i < |t.slotToKey|
  {
    t.(records := t.records[i := Record(1.0, now, t.nextHandle)], active := t.active[i := true],
       keyToSlot := t.keyToSlot[k := i], slotToKey := t.slotToKey[i := Some(k)],
       handles := t.handles[t.nextHandle := v], nextHandle := t.nextHandle + 1, size := t.size + 1)
  }

  function Touched<V>(t: Table<V>, i: nat, now: real): Table<V>
    requires i < |t.records|
  {
    t.(records := t.records[i := Record(t.records[i].count + 1.0, now, t.records[i].handle)])
  }

  function Revalued<V>(t: Table<V>, h: nat, v: V): Table<V> {
    t.(handles := t.handles[h := v])
  }

  lemma KeysShrink<V>(t: Table<V>, k: Key)
    requires k in t.keyToSlot
    ensures |t.keyToSlot - {k}| == |t.keyToSlot| - 1
  {
    assert (t.keyToSlot - {k}).Keys == t.keyToSlot.Keys - {k};
  }

  lemma KeysGrow<V>(t: Table<V>, k: Key, i: nat)
    requires k !in t.keyToSlot
    ensures |t.keyToSlot[k := i]| == |t.keyToSlot| + 1
  {
    assert t.keyToSlot[k := i].Keys == t.keyToSlot.Keys + {k};
  }

  lemma EvictParts<V>(t: Table<V>, i: nat)
    requires Inv(t) && i < |t.records| && t.active[i]
    ensures t.size > 0 && t.slotToKey[i].Some? && t.slotToKey[i].value in t.keyToSlot && t.records[i].handle != 0
    ensures SlotsOk(Evicted(t, i)) && KeysOk(Evicted(t, i))
  {
    hide HandlesOk, Distinct;
    assert SlotOk(t, i);
    KeysShrink(t, t.slotToKey[i].value);
    EvictSlots(t, i);
    EvictKeys(t, i);
  }

  lemma EvictSlots<V>(t: Table<V>, i: nat)
    requires Inv(t) && i < |t.records| && t.active[i] && t.size > 0
    ensures SlotsOk(Evicted(t, i))
  {
    hide HandlesOk;
    var t' := Evicted(t, i);
    assert SlotOk(t, i);
    forall j | 0 <= j < |t'.records| ensures SlotOk(t', j) {
      assert SlotOk(t, j);
      if j != i && t.active[j] {
        assert t.records[j].handle != t.records[i].handle;
      }
    }
  }

  lemma EvictKeys<V>(t: Table<V>, i: nat)
    requires Inv(t) && i < |t.records| && t.active[i] && t.size > 0
    ensures KeysOk(Evicted(t, i))
  {
    hide HandlesOk, Distinct;
    var t' := Evicted(t, i);
    assert SlotOk(t, i);
    forall x | x in t'.keyToSlot ensures KeyOk(t', x) {
      assert KeyOk(t, x);
    }
  }

  lemma EvictHandles<V>(t: Table<V>, i: nat)
    requires Inv(t) && i < |t.records| && t.active[i] && t.size > 0
    ensures HandlesOk(Evicted(t, i)) && Distinct(Evicted(t, i))
  {
    hide SlotsOk, KeysOk;
    var t' := Evicted(t, i);
    forall h | h in t'.handles ensures HandleOk(t', h) {
      assert HandleOk(t, h);
      var j :| 0 <= j < |t.records| && t.active[j] && t.records[j].handle == h;
      assert t'.active[j] && t'.records[j].handle == h;
    }
  }

  /** Evicting a slot forgets its key and nothing else. */
  lemma EvictKeepsInv<V>(t: Table<V>, i: nat)
    requires Inv(t) && i < |t.records| && t.active[i]
    ensures t.size > 0 && t.slotToKey[i].Some? && t.records[i].handle != 0 && Inv(Evicted(t, i))
    ensures Contents(Evicted(t, i)) == Contents(t) - {t.slotToKey[i].value}
  {
    hide SlotsOk, KeysOk, HandlesOk, Distinct;
    EvictParts(t, i);
    KeysShrink(t, t.slotToKey[i].value);
    EvictHandles(t, i);
    var t' := Evicted(t, i);
    forall x | x in t'.keyToSlot ensures ValueOf(t', x) == ValueOf(t, x) {
      EvictValue(t, i, x);
    }
  }

  lemma EvictValue<V>(t: Table<V>, i: nat, x: Key)
    requires Inv(t) && i < |t.records| && t.active[i] && t.size > 0
    requires Inv(Evicted(t, i)) && x in Evicted(t, i).keyToSlot
    ensures ValueOf(Evicted(t, i), x) == ValueOf(t, x)
  {
    hide HandlesOk, Distinct;
    assert SlotOk(t, i) && KeyOk(t, x);
    assert KeyOk(Evicted(t, i), x) && SlotOk(Evicted(t, i), t.keyToSlot[x]);
  }

  lemma PlaceParts<V>(t: Table<V>, i: nat, k: Key, v: V, now: real)
    requires Inv(t) && i < |t.records| && !t.active[i] && k !in t.keyToSlot
    ensures SlotsOk(Placed(t, i, k, v, now)) && KeysOk(Placed(t, i, k, v, now))
  {
    hide HandlesOk, Distinct;
    var t' := Placed(t, i, k, v, now);
    forall j | 0 <= j < |t'.records| ensures SlotOk(t', j) {
      assert SlotOk(t, j);
    }
    forall x | x in t'.keyToSlot ensures KeyOk(t', x) {
      if x != k {
        assert KeyOk(t, x);
      }
    }
  }

  lemma PlaceHandles<V>(t: Table<V>, i: nat, k: Key, v: V, now: real)
    requires Inv(t) && i < |t.records| && !t.active[i] && k !in t.keyToSlot
    ensures HandlesOk(Placed(t, i, k, v, now))
  {
    hide SlotsOk, KeysOk, Distinct;
    var t' := Placed(t, i, k, v, now);
    assert t'.active[i] && t'.records[i].handle == t.nextHandle;
    forall h | h in t'.handles ensures HandleOk(t', h) {
      if h != t.nextHandle {
        assert HandleOk(t, h);
        var j :| 0 <= j < |t.records| && t.active[j] && t.records[j].handle == h;
        assert t'.active[j] && t'.records[j].handle == h;
      }
    }
  }

  lemma PlaceDistinct<V>(t: Table<V>, i: nat, k: Key, v: V, now: real)
    requires Inv(t) && i < |t.records| && !t.active[i]
    ensures Distinct(Placed(t, i, k, v, now))
  {
    hide KeysOk, HandlesOk;
    var t' := Placed(t, i, k, v, now);
    forall a, b | 0 <= a < b < |t'.records| && t'.active[a] && t'.active[b]
      ensures t'.records[a].handle != t'.records[b].handle
    {
      assert SlotOk(t, a) && SlotOk(t, b);
    }
  }

  lemma PlaceValue<V>(t: Table<V>, i: nat, k: Key, v: V, now: real, x: Key)
    requires Inv(t) && i < |t.records| && !t.active[i] && k !in t.keyToSlot
    requires Inv(Placed(t, i, k, v, now)) && x in Placed(t, i, k, v, now).keyToSlot
    ensures ValueOf(Placed(t, i, k, v, now), x) == if x == k then v else ValueOf(t, x)
  {
    hide HandlesOk, Distinct;
    if x != k {
      assert KeyOk(t, x) && SlotOk(t, t.keyToSlot[x]);
    }
  }

  /** Filling a free slot under a new key remembers it and keeps the rest. */
  lemma PlaceKeepsInv<V>(t: Table<V>, i: nat, k: Key, v: V, now: real)
    requires Inv(t) && i < |t.records| && !t.active[i] && k !in t.keyToSlot
    ensures Inv(Placed(t, i, k, v, now))
    ensures Contents(Placed(t, i, k, v, now)) == Contents(t)[k := v]
  {
    hide SlotsOk, KeysOk, HandlesOk, Distinct;
    KeysGrow(t, k, i);
    PlaceParts(t, i, k, v, now);
    PlaceHandles(t, i, k, v, now);
    PlaceDistinct(t, i, k, v, now);
    var t' := Placed(t, i, k, v, now);
    forall x | x in t'.keyToSlot ensures ValueOf(t', x) == if x == k then v else ValueOf(t, x) {
      PlaceValue(t, i, k, v, now, x);
    }
  }

  /** A change of counts and times alone. */
  lemma TouchKeepsInv<V>(t: Table<V>, i: nat, now: real)
    requires Inv(t) && i < |t.records|
    ensures Inv(Touched(t, i, now)) && Contents(Touched(t, i, now)) == Contents(t)
  {
    var t' := Touched(t, i, now);
    forall j | 0 <= j < |t'.records| ensures SlotOk(t', j) {
      assert SlotOk(t, j);
    }
    forall x | x in t'.keyToSlot ensures KeyOk(t', x) {
      assert KeyOk(t, x);
    }
    forall h | h in t'.handles ensures HandleOk(t', h) {
      assert HandleOk(t, h);
      var j :| 0 <= j < |t.records| && t.active[j] && t.records[j].handle == h;
      assert t'.active[j] && t'.records[j].handle == h;
    }
  }

  lemma RevalueParts<V>(t: Table<V>, h: nat, v: V)
    requires Inv(t) && h in t.handles
    ensures Inv(Revalued(t, h, v))
  {
    var t' := Revalued(t, h, v);
    forall j | 0 <= j < |t'.records| ensures SlotOk(t', j) {
      assert SlotOk(t, j);
    }
    forall x | x in t'.keyToSlot ensures KeyOk(t', x) {
      assert KeyOk(t, x);
    }
    forall x | x in t'.handles ensures HandleOk(t', x) {
      assert HandleOk(t, x);
    }
  }

  lemma RevalueValue<V>(t: Table<V>, k: Key, v: V, x: Key)
    requires Inv(t) && k in t.keyToSlot && x in t.keyToSlot
    ensures t.keyToSlot[k] < |t.records|
    ensures var t' := Revalued(t, t.records[t.keyToSlot[k]].handle, v);
            Inv(t') && ValueOf(t', x) == if x == k then v else ValueOf(t, x)
  {
    hide HandlesOk;
    assert KeyOk(t, k) && KeyOk(t, x);
    assert SlotOk(t, t.keyToSlot[k]) && SlotOk(t, t.keyToSlot[x]);
    RevalueParts(t, t.records[t.keyToSlot[k]].handle, v);
  }

  /** Replacing the value behind a key's handle changes that key only: no two keys share a handle. */
  lemma RevalueKeepsInv<V>(t: Table<V>, k: Key, v: V)
    requires Inv(t) && k in t.keyToSlot
    ensures t.keyToSlot[k] < |t.records|
    ensures var t' := Revalued(t, t.records[t.keyToSlot[k]].handle, v); Inv(t') && Contents(t') == Contents(t)[k := v]
  {
    hide SlotsOk, KeysOk, HandlesOk, Distinct;
    RevalueValue(t, k, v, k);
    var t' := Revalued(t, t.records[t.keyToSlot[k]].handle, v);
    forall x | x in t.keyToSlot ensures ValueOf(t', x) == if x == k then v else ValueOf(t, x) {
      RevalueValue(t, k, v, x);
    }
  }

  /** No slot is free. */
  ghost predicate Packed<V>(t: Table<V>) {
    forall i :: 0 <= i < |t.active| ==> t.active[i]
  }

  /** A slot with a key whose record scores lowest. */
  lemma SlotsApart<V>(t: Table<V>, a: Key, b: Key)
    requires KeysOk(t) && a in t.keyToSlot && b in t.keyToSlot && a != b
    ensures t.keyToSlot[a] != t.keyToSlot[b]
  {
    assert KeyOk(t, a) && KeyOk(t, b);
  }

  lemma RevalueUses<V>(t: Table<V>, h: nat, v: V)
    requires KeysOk(t) && KeysOk(Revalued(t, h, v))
    ensures Uses(Revalued(t, h, v)) == Uses(t)
  {
    forall x | x in t.keyToSlot
      ensures UseOf(Revalued(t, h, v), x) == UseOf(t, x)
    {
      assert KeyOk(t, x);
    }
  }

  lemma SlotLeadsBack<V>(t: Table<V>, i: nat)
    requires Inv(t) && i < |t.records| && t.active[i]
    ensures t.slotToKey[i].Some? && t.slotToKey[i].value in t.keyToSlot && t.keyToSlot[t.slotToKey[i].value] == i
  {
    assert SlotOk(t, i);
  }

  lemma EvictUses<V>(t: Table<V>, i: nat)
    requires KeysOk(t) && i < |t.records| && t.size > 0 && KeysOk(Evicted(t, i))
    requires t.slotToKey[i].Some? && t.slotToKey[i].value in t.keyToSlot && t.keyToSlot[t.slotToKey[i].value] == i
    ensures Uses(Evicted(t, i)) == Uses(t) - {t.slotToKey[i].value}
  {
    forall x | x in t.keyToSlot && x != t.slotToKey[i].value
      ensures UseOf(Evicted(t, i), x) == UseOf(t, x)
    {
      SlotsApart(t, x, t.slotToKey[i].value);
    }
  }

  lemma PlaceUses<V>(t: Table<V>, i: nat, k: Key, v: V, now: real)
    requires KeysOk(t) && i < |t.records| && !t.active[i] && k !in t.keyToSlot && KeysOk(Placed(t, i, k, v, now))
    ensures Uses(Placed(t, i, k, v, now)) == Uses(t)[k := Use(1.0, now)]
  {
    var t' := Placed(t, i, k, v, now);
    forall x | x in t.keyToSlot
      ensures UseOf(t', x) == UseOf(t, x)
    {
      SlotsApart(t', x, k);
    }
  }

  lemma TouchUses<V>(t: Table<V>, k: Key, now: real)
    requires KeysOk(t) && k in t.keyToSlot && t.keyToSlot[k] < |t.records|
    requires KeysOk(Touched(t, t.keyToSlot[k], now))
    ensures Uses(Touched(t, t.keyToSlot[k], now)) == Uses(t)[k := Use(UseOf(t, k).count + 1.0, now)]
  {
    var t' := Touched(t, t.keyToSlot[k], now);
    forall x | x in t.keyToSlot && x != k
      ensures UseOf(t', x) == UseOf(t, x)
    {
      SlotsApart(t, x, k);
    }
  }

  lemma BlankUses<V>(t: Table<V>, i: nat)
    requires KeysOk(t) && i < |t.records| && !t.active[i] && KeysOk(Blanked(t, i))
    ensures Uses(Blanked(t, i)) == Uses(t)
  {
    forall x | x in t.keyToSlot
      ensures UseOf(Blanked(t, i), x) == UseOf(t, x)
    {
      assert KeyOk(t, x);
    }
  }

  ghost predicate Victim<V>(t: Table<V>, i: nat, score: (Record, real) -> real, now: real) {
    && i < |t.records| && i < |t.slotToKey| && t.slotToKey[i].Some?
    && (forall j :: 0 <= j < |t.records| ==> score(t.records[i], now) <= score(t.records[j], now))
    && forall j :: 0 <= j < i ==> score(t.records[i], now) < score(t.records[j], now)
  }

  lemma ActiveHasKey<V>(t: Table<V>, i: nat)
    requires Inv(t) && i < |t.records| && t.active[i]
    ensures t.slotToKey[i].Some?
  {
    hide KeysOk, HandlesOk, Distinct;
    assert SlotOk(t, i);
  }

  function Blanked<V>(t: Table<V>, i: nat): Table<V>
    requires i < |t.records|
  {
    t.(records := t.records[i := BLANK])
  }

  /** Clearing a slot that is not in use changes nothing that matters. */
  lemma BlankKeepsInv<V>(t: Table<V>, i: nat)
    requires Inv(t) && i < |t.records| && !t.active[i]
    ensures t.slotToKey[i].None? && t.records[i].handle == 0
    ensures Inv(Blanked(t, i)) && Contents(Blanked(t, i)) == Contents(t)
  {
    assert SlotOk(t, i);
    var t' := Blanked(t, i);
    forall j | 0 <= j < |t'.records| ensures SlotOk(t', j) {
      assert SlotOk(t, j);
    }
    forall x | x in t'.keyToSlot ensures KeyOk(t', x) {
      assert KeyOk(t, x);
    }
    forall h | h in t'.handles ensures HandleOk(t', h) {
      assert HandleOk(t, h);
      var j :| 0 <= j < |t.records| && t.active[j] && t.records[j].handle == h;
      assert t'.active[j] && t'.records[j].handle == h;
    }
  }

  // ---- the registry itself ----

  class HybridRegistry<V> {
    const records: array<Record>
    const active: array<bool>
    const score: (Record, real) -> real
    var keyToSlot: map<Key, nat>
    var slotToKey: seq<Option<Key>>
    var handles: map<nat, V>
    var nextHandle: nat
    var size: nat

    ghost function Fields(): Table<V>
      reads this, records, active
    {
      Table(records[..], active[..], keyToSlot, slotToKey, handles, nextHandle, size)
    }

    ghost predicate Valid()
      reads this, records, active
    {
      Inv(Fields())
    }

    ghost function Cached(): map<Key, V>
      requires Valid()
      reads this, records, active
    {
      Contents(Fields())
    }

    /** How the cached keys have been used. */
    ghost function Usage(): map<Key, Use>
      requires Valid()
      reads this, records, active
    {
      Uses(Fields())
    }

    constructor (capacity: nat, score: (Record, real) -> real)
      requires capacity > 0
      ensures Valid() && Cached() == map[] && records.Length == capacity && this.score == score
      ensures fresh(records) && fresh(active)
    {
      records := new Record[capacity](_ => BLANK);
      active := new bool[capacity](_ => false);
      this.score := score;
      keyToSlot, slotToKey, handles := map[], seq(capacity, _ => None), map[];
      nextHandle, size := 1, 0;
      new;
      forall i | 0 <= i < capacity ensures SlotOk(Fields(), i) {
      }
    }

    /** The first slot not in use, or the first of the lowest-scored ones. */
    method FreeSlot(now: real) returns (slot: nat)
      requires Valid()
      ensures slot < records.Length
      ensures !active[slot] ==> forall i :: 0 <= i < slot ==> active[i]
      ensures active[slot] ==> forall i :: 0 <= i < records.Length ==> active[i]
      ensures active[slot] ==> forall i :: 0 <= i < records.Length ==>
                                             score(records[slot], now) <= score(records[i], now)
      ensures active[slot] ==> forall i :: 0 <= i < slot ==> score(records[slot], now) < score(records[i], now)
    {
      hide SlotsOk, KeysOk, HandlesOk, Distinct;
      for i := 0 to active.Length
        invariant forall j :: 0 <= j < i ==> active[j]
      {
        if !active[i] {
          return i;
        }
      }
      slot := 0;
      for i := 1 to records.Length
        invariant slot < records.Length && slot < i
        invariant forall j :: 0 <= j < i ==> score(records[slot], now) <= score(records[j], now)
        invariant forall j :: 0 <= j < slot ==> score(records[slot], now) < score(records[j], now)
      {
        if score(records[i], now) < score(records[slot], now) {
          slot := i;
        }
      }
    }

    /** Empties a slot; one not in use holds nothing to forget. */
    method EvictSlot(slot: nat)
      requires Valid() && slot < records.Length
      modifies this, records, active
      ensures Valid() && !active[slot] && keyToSlot.Keys <= old(keyToSlot).Keys
      ensures !old(active[slot]) ==> Cached() == old(Cached())
      ensures old(active[slot]) ==> slot < |old(slotToKey)| && old(slotToKey)[slot].Some?
      ensures old(active[slot]) ==> Cached() == old(Cached()) - {old(slotToKey)[slot].value}
      ensures !old(active[slot]) ==> Usage() == old(Usage())
      ensures old(active[slot]) ==> Usage() == old(Usage()) - {old(slotToKey)[slot].value}
    {
      hide SlotsOk, KeysOk, HandlesOk, Distinct, Contents;
      ghost var t := Fields();
      if active[slot] {
        EvictKeepsInv(t, slot);
      } else {
        BlankKeepsInv(t, slot);
      }
      var key := slotToKey[slot];
      if key.Some? {
        keyToSlot := keyToSlot - {key.value};
      }
      if records[slot].handle != 0 {
        handles := handles - {records[slot].handle};
      }
      if active[slot] {
        size := size - 1;
      }
      active[slot] := false;
      slotToKey := slotToKey[slot := None];
      records[slot] := BLANK;
      if t.active[slot] {
        assert Fields() == Evicted(t, slot);
        SlotLeadsBack(t, slot);
        EvictUses(t, slot);
      } else {
        assert slotToKey == t.slotToKey && active[..] == t.active;
        assert Fields() == Blanked(t, slot);
        BlankUses(t, slot);
      }
    }

    /** Caches a value. Nothing else is forgotten unless no slot is free, and then only the lowest-scored key. */
    method Put(key: Key, value: V, now: real)
      requires Valid()
      modifies this, records, active
      ensures Valid() && key in Cached() && Cached()[key] == value
      ensures key in old(Cached()) ==> Cached() == old(Cached())[key := value]
      ensures key in old(Cached()) ==> key in old(Usage())
      ensures key in old(Cached()) ==> Usage() == old(Usage())[key := Use(old(Usage())[key].count + 1.0, now)]
      ensures key !in old(Cached()) ==> key in Usage() && Usage()[key] == Use(1.0, now)
      ensures forall k :: k in Usage() && k != key ==> k in old(Usage()) && Usage()[k] == old(Usage())[k]
      ensures key !in old(Cached()) && !Packed(old(Fields())) ==> Cached() == old(Cached())[key := value]
      ensures key !in old(Cached()) && Packed(old(Fields())) ==>
                exists i: nat :: Victim(old(Fields()), i, score, now)
                            && Cached() == (old(Cached()) - {old(slotToKey)[i].value})[key := value]
    {
      hide SlotsOk, KeysOk, HandlesOk, Distinct;
      if key in keyToSlot {
        ghost var t := Fields();
        RevalueKeepsInv(t, key, value);
        var slot := keyToSlot[key];
        ghost var t' := Revalued(t, records[slot].handle, value);
        TouchKeepsInv(t', slot, now);
        handles := handles[records[slot].handle := value];
        records[slot] := Record(records[slot].count + 1.0, now, records[slot].handle);
        assert Fields() == Touched(t', slot, now);
        RevalueUses(t, records[slot].handle, value);
        TouchUses(t', key, now);
        return;
      }
      var slot := FreeSlot(now);
      if active[slot] {
        ActiveHasKey(Fields(), slot);
        assert Victim(Fields(), slot, score, now);
        EvictSlot(slot);
      }
      Fill(slot, key, value, now);
    }

    method Fill(slot: nat, key: Key, value: V, now: real)
      requires Valid() && slot < records.Length && !active[slot] && key !in keyToSlot
      modifies this, records, active
      ensures Valid() && Cached() == old(Cached())[key := value]
      ensures Usage() == old(Usage())[key := Use(1.0, now)]
    {
      hide SlotsOk, KeysOk, HandlesOk, Distinct, Contents;
      ghost var t := Fields();
      PlaceKeepsInv(t, slot, key, value, now);
      PlaceUses(t, slot, key, value, now);
      var handle := nextHandle;
      nextHandle := nextHandle + 1;
      handles := handles[handle := value];
      records[slot] := Record(1.0, now, handle);
      active[slot] := true;
      keyToSlot := keyToSlot[key := slot];
      slotToKey := slotToKey[slot := Some(key)];
      size := size + 1;
      assert Fields() == Placed(t, slot, key, value, now);
    }

    method Get(key: Key, now: real) returns (r: Option<V>)
      requires Valid()
      modifies records
      ensures Valid() && Cached() == old(Cached())
      ensures r.Some? <==> key in Cached()
      ensures r.Some? ==> r.value == Cached()[key]
      ensures r.None? ==> Usage() == old(Usage())
      ensures r.Some? ==> key in old(Usage())
      ensures r.Some? ==> Usage() == old(Usage())[key := Use(old(Usage())[key].count + 1.0, now)]
    {
      hide HandlesOk, Distinct;
      if key !in keyToSlot {
        return None;
      }
      ghost var t := Fields();
      assert KeyOk(t, key);
      var slot := keyToSlot[key];
      assert SlotOk(t, slot);
      if !active[slot] {
        assert false;
      }
      TouchKeepsInv(t, slot, now);
      records[slot] := Record(records[slot].count + 1.0, now, records[slot].handle);
      assert Fields() == Touched(t, slot, now);
      TouchUses(t, key, now);
      r := Some(handles[records[slot].handle]);
    }

    method Remove(key: Key)
      requires Valid()
      modifies this, records, active
      ensures Valid() && Cached() == old(Cached()) - {key} && Usage() == old(Usage()) - {key}
    {
      hide HandlesOk, Distinct;
      if key in keyToSlot {
        assert KeyOk(Fields(), key);
        EvictSlot(keyToSlot[key]);
      } else {
        assert Cached() - {key} == Cached() && Usage() - {key} == Usage();
      }
    }
  }
}
