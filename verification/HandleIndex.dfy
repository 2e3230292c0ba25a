/**
 The native handle index: a mutable slot array, its counters and its handle allocator.

 Every method that changes the table also extends the ghost history `states`/`events`, so `Valid()` says that the
 object's whole life so far is a run of `IndexRuns` and each run lemma speaks about it. The read-write lock makes
 each method atomic. Allocation outcomes (`tableAlloc`, `keyAlloc`) are parameters.
 */
module HandleIndex {
  import opened Bytes
  import opened Probing
  import opened SlotTable
  import opened IndexRuns
  import opened Rehash

  const SLOT_BYTES: nat := 48
  const SIZE_MAX: nat := 0xFFFF_FFFF_FFFF_FFFF

  datatype PutResult = Done(handle: int) | Failed(code: PutError)

  datatype PutError =
    | EmptyKey                // rejected before the lock is taken
    | NoMemory                // -1
    | NegativeHandle          // -3
    | HandleInUse             // -4
    | HandlesExhausted        // -5
    | HandleImmutable         // -6
    | GenerationExhausted     // -7
    | EpochExhausted          // -8
    | BelowHighWater          // -9
    | CapacityExhausted       // -10

  lemma Pow2Unique(a: nat, b: nat)
    requires IsPow2(a) && IsPow2(b)
    requires b <= a < 2 * b
    ensures a == b
    decreases a
  {
    if b == 1 {
    } else {
      Pow2Unique(a / 2, b / 2);
    }
  }

  /** The least of p, 2p, 4p, ... that is at least n. */
  ghost function RoundUp(p: nat, n: int): (r: nat)
    requires p > 0
    ensures p <= r && n <= r
    ensures r > p ==> r < 2 * n
    ensures IsPow2(p) ==> IsPow2(r)
    decreases n - p
  {
    if n <= p then p
    else
      assert IsPow2(p) ==> IsPow2(2 * p) by {
        if IsPow2(p) {
          IsPow2Double(p);
        }
      }
      RoundUp(2 * p, n)
  }

  lemma Sixteen()
    ensures IsPow2(16)
  {
    assert IsPow2(1) && IsPow2(2) && IsPow2(4) && IsPow2(8);
  }

  /** The least power of two from 16 up that is at least n, unless it does not fit a signed size. */
  method RoundPow2Checked(n: int) returns (r: Option<nat>)
    ensures r == if RoundUp(16, n) <= SSIZE_MAX then Some(RoundUp(16, n)) else None
    ensures r.Some? ==> IsPow2(r.value) && 16 <= r.value && n <= r.value
    ensures r.Some? && r.value > 16 ==> r.value < 2 * n && n > 16
    ensures r.None? ==> n > SSIZE_MAX / 2
  {
    Sixteen();
    var p := 16;
    while p < n
      invariant 16 <= p <= SSIZE_MAX && RoundUp(p, n) == RoundUp(16, n)
    {
      if p > SSIZE_MAX / 2 {
        assert RoundUp(p, n) >= 2 * p;
        return None;
      }
      p := p * 2;
    }
    return Some(p);
  }

  /** Probe for `key` from its hash; -1 means every slot was examined and none was free. */
  method FindSlot(slots: array<Slot>, hashOf: HashFn, key: Key, hash: uint64) returns (found: bool, idx: int)
    requires WellFormed(slots[..], hashOf)
    requires hash == hashOf(key)
    ensures -1 <= idx < slots.Length
    ensures found <==> key in Bindings(slots[..])
    ensures found ==> Holds(slots[..], idx, key)
    ensures !found && idx >= 0 ==> FirstFree(slots[..], hash, idx)
    ensures !found && idx >= 0 ==> CanHost(slots[..], hashOf, key, idx)
    ensures idx == -1 ==> forall i :: 0 <= i < slots.Length ==> slots[i].state.Full?
  {
    hide CanHost;
    ghost var s := slots[..];
    var cap := slots.Length;
    var firstTomb := -1;
    var i := hash % cap;
    var ctrl := CtrlFromHash(hash);
    var probe := 0;
    while probe < cap
      invariant 0 <= probe <= cap
      invariant i == ProbeSlot(hash, probe, cap)
      invariant forall e: nat :: e < probe ==> !s[ProbeSlot(hash, e, cap)].state.Empty?
      invariant forall e: nat :: e < probe ==> !Holds(s, ProbeSlot(hash, e, cap), key)
      invariant if firstTomb == -1 then AllFull(s, hash, probe) else FirstFree(s, hash, firstTomb)
    {
      assert ReachedBy(s, hash, probe, i);
      if slots[i].state.Empty? {
        Absent(s, hashOf, key, probe);
        idx := if firstTomb >= 0 then firstTomb else i;
        FirstFreeCanHost(s, hashOf, key, idx);
        return false, idx;
      }
      if slots[i].state.Tombstone? {
        if firstTomb < 0 {
          firstTomb := i;
        }
      } else if slots[i].ctrl == ctrl && slots[i].hash == hash && slots[i].key == key {
        SlotBinds(s, i, key);
        return true, i;
      }
      ProbeStep(hash, probe, cap);
      i := (i + probe + 1) % cap;
      probe := probe + 1;
    }
    AbsentAfterAll(s, hashOf, key);
    if firstTomb >= 0 {
      FirstFreeCanHost(s, hashOf, key, firstTomb);
    } else {
      AllProbesFull(s, hash);
    }
    return false, if firstTomb >= 0 then firstTomb else -1;
  }

  lemma AllProbesFull(s: seq<Slot>, hash: nat)
    requires |s| > 0 && IsPow2(|s|) && AllFull(s, hash, |s|)
    ensures forall i :: 0 <= i < |s| ==> s[i].state.Full?
  {
    forall i | 0 <= i < |s|
      ensures s[i].state.Full?
    {
      ProbesCoverTable(hash, i, |s|);
    }
  }

  lemma Absent(s: seq<Slot>, hashOf: HashFn, key: Key, p: nat)
    requires WellFormed(s, hashOf)
    requires p < |s|
    requires forall e: nat :: e < p ==> !Holds(s, ProbeSlot(hashOf(key), e, |s|), key)
    requires s[ProbeSlot(hashOf(key), p, |s|)].state.Empty?
    ensures key !in Bindings(s)
  {
    if key in Bindings(s) {
      var i := BoundSlot(s, key);
      EmptyEndsSearch(s, hashOf, key, p, i);
    }
  }

  lemma AbsentAfterAll(s: seq<Slot>, hashOf: HashFn, key: Key)
    requires WellFormed(s, hashOf)
    requires forall e: nat :: e < |s| ==> !Holds(s, ProbeSlot(hashOf(key), e, |s|), key)
    ensures key !in Bindings(s)
  {
    if key in Bindings(s) {
      var i := BoundSlot(s, key);
      FullSearchRulesOutKey(s, hashOf, key, i);
    }
  }

  /** Move every full slot of `src` into the empty table `dst`, leaving emptied slots behind. */
  method MoveSlots(src: array<Slot>, dst: array<Slot>, hashOf: HashFn)
    requires src != dst
    requires WellFormed(src[..], hashOf)
    requires IsPow2(dst.Length)
    requires |SlotsIn(src[..], Full)| < dst.Length
    requires forall j :: 0 <= j < dst.Length ==> dst[j] == EMPTY_SLOT
    modifies src, dst
    ensures WellFormed(dst[..], hashOf)
    ensures Bindings(dst[..]) == Bindings(old(src[..]))
    ensures FreeSlotsBlank(dst[..])
  {
    hide DistinctKeys, SlotsReachable, Reachable, FirstFree, Bindings, FreeSlotsBlank;
    ghost var was := src[..];
    CopyStart(was, dst[..], hashOf);
    var i := 0;
    while i < src.Length
      invariant 0 <= i <= src.Length
      invariant forall j :: i <= j < src.Length ==> src[j] == was[j]
      invariant Copied(was, dst[..], i, hashOf)
    {
      if !src[i].state.Full? {
        CopySkip(was, dst[..], i, hashOf);
      } else {
        CopyKeyAbsent(was, dst[..], i, hashOf);
        CopyHasRoom(was, dst[..], i, hashOf);
        StoredHash(was, hashOf, i);
        var found, idx := FindSlot(dst, hashOf, src[i].key, src[i].hash);
        if idx < 0 {
          assert false;  // the mid-move failure of resize_index
        }
        CopyPut(was, dst[..], i, hashOf, idx, src[i]);
        assert dst[..][idx := src[i]] == dst[..idx] + [src[i]] + dst[idx + 1..];
        dst[idx] := src[i];
        src[i] := src[i].(key := [], state := Empty);
      }
      i := i + 1;
    }
    CopyDone(was, dst[..], hashOf);
  }

  class NativeHandleIndex {
    const hashOf: HashFn
    var slots: array<Slot>
    var size: nat
    var tombstones: nat
    var nextHandle: int
    var namespaceId: nat
    var epoch: nat
    ghost var states: seq<IndexState>
    ghost var events: seq<Event>

    ghost function State(): IndexState
      reads this, slots
    {
      IndexState(slots[..], size, tombstones, nextHandle, namespaceId, epoch)
    }

    ghost predicate Valid()
      reads this, slots
    {
      && IsRun(states, events, hashOf)
      && State() == states[|events|]
      && Inv(State(), hashOf)
      && epoch <= UINT64_MAX
    }

    /** The partial map the index stands for. */
    ghost function Map(): map<Key, int>
      requires Valid()
      reads this, slots
    {
      Bindings(slots[..])
    }

    constructor (hashOf: HashFn, capacity: nat, namespaceId: nat)
      requires 16 <= capacity && IsPow2(capacity)
      ensures Valid() && fresh(slots)
      ensures Map() == map[]
      ensures this.hashOf == hashOf && this.namespaceId == namespaceId
      ensures slots.Length == capacity && nextHandle == 1 && events == []
    {
      this.hashOf := hashOf;
      slots := new Slot[capacity](_ => EMPTY_SLOT);
      size, tombstones, nextHandle, epoch := 0, 0, 1, 1;
      this.namespaceId := namespaceId;
      new;
      CopyStart(slots[..], slots[..], hashOf);
      assert Bindings(slots[..]) == map[];
      InitInv(State(), hashOf);
      events := [];
      states := [State()];
    }

    /** Append one event to the history. */
    ghost method Record(e: Event, pre: IndexState)
      requires IsRun(states, events, hashOf) && states[|events|] == pre && Inv(pre, hashOf)
      requires Step(pre, e, State(), hashOf)
      requires epoch <= UINT64_MAX
      modifies this`states, this`events
      ensures Valid()
      ensures states == old(states) + [State()] && events == old(events) + [e]
    {
      hide Inv, Step, Init, StepAt;
      RunExtend(states, events, e, State(), hashOf);
      StepKeepsInv(pre, e, State(), hashOf);
      events := events + [e];
      states := states + [State()];
    }

    lemma CurrentState()
      requires Valid()
      ensures epoch <= UINT64_MAX
      ensures |states| == |events| + 1 && states[|events|] == State()
    {
    }

    // ---- growth ----

    /** Double the table, re-inserting every binding; on any failure nothing has changed. */
    method Grow(tableAlloc: bool) returns (err: Option<PutError>)
      requires Valid() && MustGrow(State())
      modifies this, slots
      ensures Valid()
      ensures err.Some? ==> unchanged(this) && unchanged(slots)
      ensures err.None? ==> fresh(slots) && slots.Length == 2 * old(slots.Length)
      ensures err.None? ==> Map() == old(Map()) && epoch == old(epoch) + 1 && nextHandle == old(nextHandle)
      ensures err.None? ==> size == old(size) && tombstones == 0 && FreeSlotsBlank(slots[..])
      ensures err.None? ==> states == old(states) + [State()] && events == old(events) + [Resize]
      ensures err == Some(EpochExhausted) <==> old(epoch) == UINT64_MAX
      ensures err == Some(NoMemory) <==>
                old(epoch) < UINT64_MAX && 2 * old(slots.Length) <= SIZE_MAX / SLOT_BYTES && !tableAlloc
      ensures err == Some(CapacityExhausted) <==>
                old(epoch) < UINT64_MAX && 2 * old(slots.Length) > SIZE_MAX / SLOT_BYTES
      ensures err.Some? ==> err.value in {EpochExhausted, NoMemory, CapacityExhausted}
    {
      if epoch == UINT64_MAX {
        return Some(EpochExhausted);
      }
      var rounded := RoundPow2Checked(slots.Length * 2);
      if rounded.None? {
        return Some(CapacityExhausted);
      }
      var newcap := rounded.value;
      assert newcap == 2 * slots.Length by {
        IsPow2Double(slots.Length);
        Pow2Unique(newcap, 2 * slots.Length);
      }
      if newcap > SIZE_MAX / SLOT_BYTES {
        return Some(CapacityExhausted);
      }
      if !tableAlloc {
        return Some(NoMemory);
      }
      ghost var pre := State();
      var fresh_ := new Slot[newcap](_ => EMPTY_SLOT);
      MoveSlots(slots, fresh_, hashOf);
      slots := fresh_;
      tombstones := 0;
      epoch := epoch + 1;
      assert SlotsIn(slots[..], Tombstone) == {};
      Record(Resize, pre);
      return None;
    }

    /** Grow when the 70% rule asks for it. */
    method MaybeResize(tableAlloc: bool) returns (err: Option<PutError>, resized: bool)
      requires Valid()
      modifies this, slots
      ensures Valid()
      ensures err.Some? || !resized ==> unchanged(this) && unchanged(slots)
      ensures resized ==> err.None? && fresh(slots) && FreeSlotsBlank(slots[..])
      ensures Map() == old(Map()) && nextHandle == old(nextHandle)
      ensures err.None? ==> !MustGrow(State())
      ensures resized <==> err.None? && 10 * old(size + tombstones) >= 7 * old(slots.Length)
      ensures resized ==> slots.Length == 2 * old(slots.Length) && epoch == old(epoch) + 1
      ensures resized ==> states == old(states) + [State()] && events == old(events) + [Resize]
      ensures forall code :: err == Some(code) <==> GrowthFails(code, tableAlloc, old(State()))
    {
      var occupied := size + tombstones;
      if occupied >= Threshold(slots.Length) {
        if slots.Length > SSIZE_MAX / 2 {
          return Some(CapacityExhausted), false;
        }
        err := Grow(tableAlloc);
        return err, err.None?;
      }
      return None, false;
    }

    // ---- handles ----

    /** Whether a slot other than the excepted one is full and holds the handle. */
    method HandleIsInUse(handle: int, exceptIndex: int) returns (inUse: bool)
      ensures inUse <==> exists i :: 0 <= i < slots.Length && i != exceptIndex && slots[i].state.Full?
                                     && slots[i].handle == handle
      ensures inUse ==> LiveHandle(slots[..], handle)
    {
      for i := 0 to slots.Length
        invariant forall j :: 0 <= j < i && j != exceptIndex && slots[j].state.Full? ==> slots[j].handle != handle
      {
        if i != exceptIndex && slots[i].state.Full? && slots[i].handle == handle {
          assert slots[..][i].handle == handle;
          return true;
        }
      }
      return false;
    }

    /** Choose the handle of a new binding and advance the high-water mark past it. */
    method TakeHandle(requested: int) returns (r: PutResult)
      requires Valid()
      requires 0 <= requested <= INT64_MAX
      modifies this`nextHandle
      ensures r.Done? ==> FreshHandle(old(State()), r.handle)
      ensures r.Done? ==> r.handle == if requested > 0 then requested else old(nextHandle)
      ensures r.Done? ==> nextHandle == SuccHandle(r.handle)
      ensures r.Failed? ==> nextHandle == old(nextHandle)
      ensures r == Failed(HandlesExhausted) <==> old(nextHandle) == 0
      ensures r == Failed(HandleInUse) <==>
                old(nextHandle) > 0 && requested > 0 && LiveHandle(slots[..], requested)
      ensures r == Failed(BelowHighWater) <==>
                0 < requested < old(nextHandle) && !LiveHandle(slots[..], requested)
      ensures r.Failed? ==> r.code in {HandlesExhausted, HandleInUse, BelowHighWater}
    {
      hide WellFormed;
      if requested > 0 {
        if nextHandle <= 0 {
          return Failed(HandlesExhausted);
        }
        var inUse := HandleIsInUse(requested, -1);
        if inUse {
          return Failed(HandleInUse);
        }
        if requested < nextHandle {
          return Failed(BelowHighWater);
        }
        nextHandle := if requested == INT64_MAX then 0 else requested + 1;
        return Done(requested);
      } else {
        if nextHandle <= 0 {
          return Failed(HandlesExhausted);
        }
        var handle := nextHandle;
        nextHandle := if handle == INT64_MAX then 0 else handle + 1;
        return Done(handle);
      }
    }

    // ---- put ----

    /** Write a new binding into a free slot: the last part of put_handle_locked. */
    method Place(key: Key, hash: uint64, idx: nat, handle: int, ghost pre: IndexState)
      requires IsRun(states, events, hashOf) && states[|events|] == pre && Inv(pre, hashOf)
      requires State() == pre.(nextHandle := SuccHandle(handle)) && epoch <= UINT64_MAX
      requires FreshHandle(pre, handle)
      requires key != [] && hash == hashOf(key)
      requires FirstFree(pre.slots, hash, idx) && key !in Bindings(pre.slots)
      requires !MustGrow(pre)
      modifies this`size, this`tombstones, this`states, this`events, slots
      ensures Valid()
      ensures Map() == Bindings(pre.slots)[key := handle]
      ensures states == old(states) + [State()] && events == old(events) + [Insert(key, handle, idx)]
    {
      hide WellFormed, HandlesOk, Reachable, Bindings, IsRun, Step, FreshHandle;
      InvDistinct(pre, hashOf);
      assert idx in SlotsIn(pre.slots, Tombstone) <==> slots[idx].state.Tombstone?;
      if slots[idx].state.Tombstone? {
        tombstones := tombstones - 1;
      }
      slots[idx] := Slot(Full, key, handle, CtrlFromHash(hash), hash, slots[idx].generation + 1);
      size := size + 1;
      assert slots[..] == pre.slots[idx := FullSlot(key, handle, hashOf(key), pre.slots[idx].generation + 1)];
      InsertIsStep(pre, key, handle, idx, hashOf, State());
      InsertKeepsInv(pre, key, handle, idx, State(), hashOf);
      Record(Insert(key, handle, idx), pre);
    }

    /** Bind `key`, to a chosen handle when `requested` is positive and to the next one when it is 0. */
    method Put(key: Key, requested: int, tableAlloc: bool, keyAlloc: bool) returns (r: PutResult)
      requires Valid()
      requires requested <= INT64_MAX
      modifies this, slots
      ensures Valid()
      ensures slots == old(slots) || fresh(slots)
      ensures old(states) <= states && old(events) <= events
      ensures forall j :: |old(events)| <= j < |events| ==> !events[j].Remove?
      ensures var grew := Adds(key, requested, old(Map())) && Grows(old(State()), tableAlloc);
              && slots.Length == (if grew then 2 * old(slots.Length) else old(slots.Length))
              && epoch == (if grew then old(epoch) + 1 else old(epoch))
      ensures 10 * old(size + tombstones) < 7 * old(slots.Length) ==>
                epoch == old(epoch) && slots.Length == old(slots.Length)
      ensures r.Done? && requested > 0 ==> r.handle == requested
      ensures r.Done? ==> Map() == old(Map())[key := r.handle]
      ensures r.Done? && key in old(Map()) ==>
                r.handle == old(Map())[key] && events == old(events) && nextHandle == old(nextHandle)
      ensures r.Done? && key !in old(Map()) ==>
                && old(nextHandle) > 0
                && r.handle == (if requested > 0 then requested else old(nextHandle))
                && old(nextHandle) <= r.handle
                && nextHandle == SuccHandle(r.handle)
      ensures HighWater(old(nextHandle)) <= HighWater(nextHandle)
      ensures r.Failed? ==> Map() == old(Map())
      ensures forall code ::
                r == Failed(code) <==>
                PutFails(code, key, requested, tableAlloc, keyAlloc, old(State()), old(Map()), hashOf)
    {
      if |key| == 0 {
        return Failed(EmptyKey);
      }
      if requested < 0 {
        return Failed(NegativeHandle);
      }
      var hash := hashOf(key);
      InvLeavesEmptySlot(State(), hashOf);
      var found, idx := FindSlot(slots, hashOf, key, hash);
      if idx < 0 {
        assert false;  // "native index is full"
      }
      if found {
        SlotBinds(slots[..], idx, key);
        if requested > 0 && requested != slots[idx].handle {
          return Failed(HandleImmutable);
        }
        return Done(slots[idx].handle);
      }
      r := PutNew(key, hash, requested, idx, tableAlloc, keyAlloc);
    }

    /** The slot of a new key in a table that has just been resized. */
    method FindAgain(key: Key, hash: uint64) returns (idx: nat)
      requires Valid() && FreeSlotsBlank(slots[..])
      requires hash == hashOf(key) && key !in Map()
      ensures idx < slots.Length && FirstFree(slots[..], hash, idx) && slots[idx].generation == 0
    {
      hide HandlesOk, Reachable, Bindings;
      InvLeavesEmptySlot(State(), hashOf);
      var found, at := FindSlot(slots, hashOf, key, hash);
      if at < 0 || found {
        assert false;  // "native index is full" after a resize
      }
      idx := at;
    }

    /** Grow if needed and fix the slot a new key will take. */
    method ChooseSlot(key: Key, hash: uint64, idx0: nat, tableAlloc: bool) returns (err: Option<PutError>, idx: nat)
      requires Valid()
      requires hash == hashOf(key) && key !in Map() && FirstFree(slots[..], hash, idx0)
      modifies this, slots
      ensures Valid()
      ensures slots == old(slots) || fresh(slots)
      ensures old(states) <= states && old(events) <= events
      ensures forall j :: |old(events)| <= j < |events| ==> !events[j].Remove?
      ensures slots.Length == if Grows(old(State()), tableAlloc) then 2 * old(slots.Length) else old(slots.Length)
      ensures epoch == if Grows(old(State()), tableAlloc) then old(epoch) + 1 else old(epoch)
      ensures Map() == old(Map()) && nextHandle == old(nextHandle)
      ensures err.None? ==> idx < slots.Length && FirstFree(slots[..], hash, idx)
      ensures err.None? ==> !MustGrow(State())
      ensures forall code :: err == Some(code) <==> ChoiceFails(code, hash, tableAlloc, old(State()))
    {
      hide Valid, Map, FirstFree, GrowthFails, WornOut, FreeSlotsBlank;
      idx := idx0;
      CurrentState();
      WornOutAt(State(), hash, idx);
      GrowthDecided(State(), tableAlloc);
      var resized;
      err, resized := MaybeResize(tableAlloc);
      if err.Some? {
        return;
      }
      if resized {
        idx := FindAgain(key, hash);
      }
      if slots[idx].generation >= UINT32_MAX {
        err := Some(GenerationExhausted);
      }
    }

    /** The part of put_handle_locked that runs once the key is known to be absent. */
    method PutNew(key: Key, hash: uint64, requested: int, idx0: nat, tableAlloc: bool, keyAlloc: bool)
      returns (r: PutResult)
      requires Valid()
      requires |key| > 0 && 0 <= requested <= INT64_MAX
      requires hash == hashOf(key) && key !in Map() && FirstFree(slots[..], hash, idx0)
      modifies this, slots
      ensures Valid()
      ensures slots == old(slots) || fresh(slots)
      ensures old(states) <= states && old(events) <= events
      ensures forall j :: |old(events)| <= j < |events| ==> !events[j].Remove?
      ensures slots.Length == if Grows(old(State()), tableAlloc) then 2 * old(slots.Length) else old(slots.Length)
      ensures epoch == if Grows(old(State()), tableAlloc) then old(epoch) + 1 else old(epoch)
      ensures r.Done? ==> Map() == old(Map())[key := r.handle]
      ensures r.Done? ==>
                && old(nextHandle) > 0
                && r.handle == (if requested > 0 then requested else old(nextHandle))
                && old(nextHandle) <= r.handle
                && nextHandle == SuccHandle(r.handle)
      ensures HighWater(old(nextHandle)) <= HighWater(nextHandle)
      ensures r.Failed? ==> Map() == old(Map())
      ensures forall code ::
                r == Failed(code) <==> AddFails(code, hash, requested, tableAlloc, keyAlloc, old(State()), old(Map()))
    {
      hide Valid, Map, FirstFree, ChoiceFails, HandleFails, Grows, MustGrow, SlotChosen;
      CurrentState();
      ChoiceDecided(hash, tableAlloc, State());
      var err, idx := ChooseSlot(key, hash, idx0, tableAlloc);
      if err.Some? {
        return Failed(err.value);
      }
      r := BindKey(key, hash, requested, idx, keyAlloc);
    }

    /** Take a handle, copy the key and write the slot. A failed copy still uses the handle up. */
    method BindKey(key: Key, hash: uint64, requested: int, idx: nat, keyAlloc: bool) returns (r: PutResult)
      requires Valid()
      requires key != [] && 0 <= requested <= INT64_MAX
      requires hash == hashOf(key) && key !in Map() && FirstFree(slots[..], hash, idx)
      requires !MustGrow(State())
      modifies this, slots
      ensures Valid()
      ensures slots == old(slots) && epoch == old(epoch)
      ensures old(states) <= states && old(events) <= events
      ensures forall j :: |old(events)| <= j < |events| ==> !events[j].Remove?
      ensures r.Done? ==> Map() == old(Map())[key := r.handle]
      ensures r.Done? ==>
                && old(nextHandle) > 0
                && r.handle == (if requested > 0 then requested else old(nextHandle))
                && old(nextHandle) <= r.handle
                && nextHandle == SuccHandle(r.handle)
      ensures HighWater(old(nextHandle)) <= HighWater(nextHandle)
      ensures r.Failed? ==> Map() == old(Map())
      ensures forall code ::
                r == Failed(code) <==> HandleFails(code, requested, keyAlloc, old(nextHandle), old(Map()))
    {
      hide SlotsReachable, HandlesOk, Reachable, Bindings;
      ghost var pre := State();
      LiveHandleIsBound(slots[..], requested);
      r := TakeHandle(requested);
      if r.Failed? {
        return;
      }
      if !keyAlloc {
        Record(Burn(r.handle), pre);
        return Failed(NoMemory);
      }
      Place(key, hash, idx, r.handle, pre);
    }

    /** Bind several keys in order under one lock; the first failure stops the batch and keeps what was done. */
    method PutMany(keys: seq<Key>, tableAlloc: nat -> bool, keyAlloc: nat -> bool)
      returns (handles: seq<int>, err: Option<PutError>, ghost stop: nat)
      requires Valid()
      modifies this, slots
      ensures Valid()
      ensures slots == old(slots) || fresh(slots)
      ensures old(states) <= states && old(events) <= events
      ensures BatchPut(old(Map()), Map(), keys, handles)
      ensures FreshBatch(old(Map()), keys, handles, HighWater(old(nextHandle)), HighWater(nextHandle))
      ensures err.None? <==> |handles| == |keys|
      ensures [] in keys ==> err == Some(EmptyKey) && Map() == old(Map()) && nextHandle == old(nextHandle)
      ensures err.Some? && [] !in keys ==>
                && |handles| < |keys| && |old(events)| <= stop < |states|
                && PutFails(err.value, keys[|handles|], 0, tableAlloc(|handles|), keyAlloc(|handles|),
                            states[stop], Map(), hashOf)
    {
      hide Valid, Map, BatchPut, FreshBatch, PutFails;
      handles, stop := [], 0;
      BatchPutStart(Map(), keys, HighWater(nextHandle));
      if [] in keys {
        return [], Some(EmptyKey), 0;
      }
      while |handles| < |keys|
        invariant Valid() && |handles| <= |keys|
        invariant slots == old(slots) || fresh(slots)
        invariant old(states) <= states && old(events) <= events
        invariant BatchPut(old(Map()), Map(), keys, handles)
        invariant FreshBatch(old(Map()), keys, handles, HighWater(old(nextHandle)), HighWater(nextHandle))
      {
        var i := |handles|;
        ghost var m, high, before := Map(), HighWater(nextHandle), states;
        CurrentState();
        stop := |events|;
        var r := Put(keys[i], 0, tableAlloc(i), keyAlloc(i));
        if r.Failed? {
          FreshBatchWiden(old(Map()), keys, handles, HighWater(old(nextHandle)), high, HighWater(nextHandle));
          assert states[stop] == before[stop];
          return handles, Some(r.code), stop;
        }
        FreshBatchNext(old(Map()), m, keys, handles, r.handle, HighWater(old(nextHandle)), high, HighWater(nextHandle));
        BatchPutNext(old(Map()), m, keys, handles, r.handle);
        handles := handles + [r.handle];
      }
      return handles, None, 0;
    }

    // ---- lookup and pop ----

    method Lookup(key: Key) returns (handle: int)
      requires Valid()
      ensures handle == LookupIn(Map(), key)
      ensures handle >= 0 <==> key in Map()
    {
      var hash := hashOf(key);
      var found, idx := FindSlot(slots, hashOf, key, hash);
      if found {
        SlotBinds(slots[..], idx, key);
      }
      handle := if idx >= 0 && found then slots[idx].handle else -1;
    }

    /** Looks up a batch; None when the batch holds an empty key. */
    method LookupMany(keys: seq<Key>) returns (r: Option<seq<int>>)
      requires Valid()
      ensures r.None? <==> [] in keys
      ensures r.Some? ==> |r.value| == |keys|
      ensures r.Some? ==> forall j :: 0 <= j < |keys| ==> r.value[j] == LookupIn(Map(), keys[j])
    {
      hide Valid, Map;
      if [] in keys {
        return None;
      }
      var handles := [];
      for i := 0 to |keys|
        invariant |handles| == i
        invariant forall j :: 0 <= j < i ==> handles[j] == LookupIn(Map(), keys[j])
      {
        var h := Lookup(keys[i]);
        handles := handles + [h];
      }
      r := Some(handles);
    }

    /** Unbind `key`, leaving a tombstone that keeps every other key reachable. */
    method Pop(key: Key) returns (handle: int)
      requires Valid()
      modifies this`size, this`tombstones, this`states, this`events, slots
      ensures Valid()
      ensures handle == LookupIn(old(Map()), key)
      ensures Map() == old(Map()) - {key}
      ensures old(states) <= states && old(events) <= events
    {
      hide SlotsReachable, HandlesOk, Reachable, Bindings, Step, IsRun;
      var hash := hashOf(key);
      var found, idx := FindSlot(slots, hashOf, key, hash);
      if idx < 0 || !found {
        assert Map() == old(Map()) - {key};
        return -1;
      }
      SlotBinds(slots[..], idx, key);
      SomeFull(slots[..], idx);
      ghost var pre := State();
      handle := slots[idx].handle;
      slots[idx] := Slot(Tombstone, [], 0, 0, 0, slots[idx].generation);
      assert slots[..] == pre.slots[idx := Slot(Tombstone, [], 0, 0, 0, pre.slots[idx].generation)];
      size := size - 1;
      tombstones := tombstones + 1;
      RemoveIsStep(pre, idx, hashOf, State());
      RemoveKeepsInv(pre, idx, State(), hashOf);
      Record(Remove(idx), pre);
    }

    /** Pops a batch in order; None, and nothing popped, when the batch holds an empty key. */
    method PopMany(keys: seq<Key>) returns (r: Option<seq<int>>)
      requires Valid()
      modifies this`size, this`tombstones, this`states, this`events, slots
      ensures Valid()
      ensures r.None? <==> [] in keys
      ensures r.None? ==> Map() == old(Map())
      ensures r.Some? ==> BatchPop(old(Map()), Map(), keys, r.value) && |r.value| == |keys|
      ensures old(states) <= states && old(events) <= events
    {
      hide Valid, Map;
      if [] in keys {
        return None;
      }
      var handles: seq<int> := [];
      BatchPopStart(Map(), keys);
      while |handles| < |keys|
        invariant Valid()
        invariant BatchPop(old(Map()), Map(), keys, handles)
        invariant old(states) <= states && old(events) <= events
      {
        ghost var m := Map();
        var h := Pop(keys[|handles|]);
        BatchPopNext(old(Map()), m, keys, handles, h);
        handles := handles + [h];
      }
      r := Some(handles);
    }

    // ---- handle references ----

    method GetHandleRef(key: Key) returns (ref: Option<HandleRef>)
      requires Valid()
      ensures ref.Some? <==> key in Map()
      ensures ref.Some? ==> IssuedFor(states[|events|], key, ref.value) && ref.value.handle == Map()[key]
    {
      var hash := hashOf(key);
      var found, idx := FindSlot(slots, hashOf, key, hash);
      if idx < 0 || !found {
        return None;
      }
      SlotBinds(slots[..], idx, key);
      return Some(HandleRef(namespaceId, epoch, idx, slots[idx].generation, slots[idx].handle));
    }

    /** A reference issued at any earlier point of this object's life resolves exactly while it is still good. */
    method ResolveHandleRef(ref: HandleRef) returns (handle: int)
      requires Valid()
      ensures handle == ref.handle || handle == -1
      ensures ref.namespaceId != namespaceId ==> handle == -1
      ensures forall a: nat, key ::
                a < |states| && IssuedFor(states[a], key, ref) ==>
                  (handle == ref.handle <==> states[a].epoch == epoch && StaysBound(states, a, |events|, key))
    {
      handle := -1;
      if ref.namespaceId == namespaceId && ref.epoch == epoch && ref.slot < slots.Length {
        var slot := slots[ref.slot];
        if slot.state.Full? && slot.generation == ref.generation && slot.handle == ref.handle {
          handle := slot.handle;
        }
      }
      hide Inv, IsRun, StaysBound;
      assert handle == Resolve(State(), ref);
      forall a: nat, key | a < |states| && IssuedFor(states[a], key, ref)
        ensures handle == ref.handle <==> states[a].epoch == epoch && StaysBound(states, a, |events|, key)
      {
        RefResolvesIffBound(states, events, hashOf, a, |events|, key, ref);
      }
    }
  }

  datatype InitError = NonPositiveCapacity | NamespacesExhausted | CapacityTooLarge | InitNoMemory

  /** Create an index for a requested capacity: an empty index of the next power of two from 16 up, or an error with
      exactly one cause. */
  method CreateIndex(hashOf: HashFn, capacity: int, lastNamespaceId: uint64, tableAlloc: bool)
    returns (index: NativeHandleIndex?, err: Option<InitError>)
    ensures err.None? <==> index != null
    ensures err == Some(NonPositiveCapacity) <==> capacity <= 0
    ensures err == Some(NamespacesExhausted) <==> capacity > 0 && lastNamespaceId == UINT64_MAX
    ensures err == Some(CapacityTooLarge) <==>
              capacity > 0 && lastNamespaceId < UINT64_MAX && RoundUp(16, capacity) > SIZE_MAX / SLOT_BYTES
    ensures err == Some(InitNoMemory) <==>
              && capacity > 0 && lastNamespaceId < UINT64_MAX && RoundUp(16, capacity) <= SIZE_MAX / SLOT_BYTES
              && !tableAlloc
    ensures index != null ==>
              && fresh(index) && fresh(index.slots) && index.Valid()
              && index.Map() == map[] && index.hashOf == hashOf && index.namespaceId == lastNamespaceId + 1
              && index.slots.Length == RoundUp(16, capacity)
  {
    if capacity <= 0 {
      return null, Some(NonPositiveCapacity);
    }
    if lastNamespaceId == UINT64_MAX {
      return null, Some(NamespacesExhausted);
    }
    var rounded := RoundPow2Checked(capacity);
    if rounded.None? || rounded.value > SIZE_MAX / SLOT_BYTES {
      return null, Some(CapacityTooLarge);
    }
    if !tableAlloc {
      return null, Some(InitNoMemory);
    }
    index := new NativeHandleIndex(hashOf, rounded.value, lastNamespaceId + 1);
    err := None;
  }

  /** A reference taken before a put of any key resolves after it, unless that put grew the table. */
  method ResolveAfterPut(index: NativeHandleIndex, key: Key, other: Key, requested: int, tableAlloc: bool,
                         keyAlloc: bool)
    returns (r: Option<int>)
    requires index.Valid() && requested <= INT64_MAX
    modifies index, index.slots
    ensures index.Valid()
    ensures r.None? <==> key !in old(index.Map())
    ensures r.Some? ==>
              r.value == if Adds(other, requested, old(index.Map())) && Grows(old(index.State()), tableAlloc) then -1
                         else old(index.Map())[key]
  {
    hide IsRun, Inv, IssuedFor, StaysBound, PutFails, Grows, Adds, Bindings;
    var ref := index.GetHandleRef(key);
    if ref.None? {
      return None;
    }
    index.CurrentState();
    ghost var a := |index.events|;
    ghost var issued := index.states;
    var _ := index.Put(other, requested, tableAlloc, keyAlloc);
    index.CurrentState();
    assert index.states[a] == issued[a];
    IssuedBound(index.states[a], key, ref.value);
    BoundUntilRemoved(index.states, index.events, index.hashOf, a, |index.events|, key);
    RefResolvesIffBound(index.states, index.events, index.hashOf, a, |index.events|, key, ref.value);
    var handle := index.ResolveHandleRef(ref.value);
    r := Some(handle);
  }

  lemma IssuedBound(s: IndexState, key: Key, ref: HandleRef)
    requires IssuedFor(s, key, ref)
    ensures Bound(s, key)
  {
  }

  ghost function KeysOf(keys: seq<Key>): set<Key> {
    set k | k in keys
  }

  lemma KeysOfNext(keys: seq<Key>, i: nat)
    requires i < |keys|
    ensures KeysOf(keys[..i + 1]) == KeysOf(keys[..i]) + {keys[i]}
  {
    assert keys[..i + 1] == keys[..i] + [keys[i]];
  }

  /** The first |handles| keys are bound to those handles; every older binding is kept; nothing else is bound. */
  ghost predicate BatchPut(before: map<Key, int>, after: map<Key, int>, keys: seq<Key>, handles: seq<int>) {
    && |handles| <= |keys|
    && after.Keys == before.Keys + KeysOf(keys[..|handles|])
    && (forall k :: k in before ==> k in after && after[k] == before[k])
    && (forall j :: 0 <= j < |handles| ==> keys[j] in after && after[keys[j]] == handles[j])
  }

  /** The batch's j-th key is bound neither before the batch nor earlier in it. */
  ghost predicate NewKey(before: map<Key, int>, keys: seq<Key>, j: nat)
    requires j < |keys|
  {
    keys[j] !in before && keys[j] !in keys[..j]
  }

  ghost predicate FreshAt(before: map<Key, int>, keys: seq<Key>, handles: seq<int>, j: nat, low: int, high: int)
    requires j < |handles| <= |keys|
  {
    NewKey(before, keys, j) ==>
      && low <= handles[j] < high
      && forall i :: 0 <= i < j && NewKey(before, keys, i) ==> handles[i] < handles[j]
  }

  /** The handles given to new keys lie between the two high-water marks and increase. */
  ghost predicate FreshBatch(before: map<Key, int>, keys: seq<Key>, handles: seq<int>, low: int, high: int) {
    && |handles| <= |keys| && low <= high
    && forall j :: 0 <= j < |handles| ==> FreshAt(before, keys, handles, j, low, high)
  }

  lemma BatchPutStart(m: map<Key, int>, keys: seq<Key>, high: int)
    ensures BatchPut(m, m, keys, []) && FreshBatch(m, keys, [], high, high)
  {
    assert KeysOf(keys[..0]) == {};
  }

  lemma FreshBatchWiden(before: map<Key, int>, keys: seq<Key>, handles: seq<int>, low: int, high: int, higher: int)
    requires FreshBatch(before, keys, handles, low, high) && high <= higher
    ensures FreshBatch(before, keys, handles, low, higher)
  {
    forall j | 0 <= j < |handles| ensures FreshAt(before, keys, handles, j, low, higher) {
      assert FreshAt(before, keys, handles, j, low, high);
    }
  }

  lemma FreshBatchNext(before: map<Key, int>, mid: map<Key, int>, keys: seq<Key>, handles: seq<int>, h: int,
                       low: int, high: int, higher: int)
    requires BatchPut(before, mid, keys, handles) && FreshBatch(before, keys, handles, low, high)
    requires |handles| < |keys| && high <= higher
    requires keys[|handles|] !in mid ==> high <= h < higher
    ensures FreshBatch(before, keys, handles + [h], low, higher)
  {
    var n := |handles|;
    var more := handles + [h];
    forall j | 0 <= j < n ensures FreshAt(before, keys, more, j, low, higher) {
      assert FreshAt(before, keys, handles, j, low, high);
    }
    if NewKey(before, keys, n) {
      assert keys[n] !in KeysOf(keys[..n]);
      forall i | 0 <= i < n && NewKey(before, keys, i) ensures more[i] < more[n] {
        assert FreshAt(before, keys, handles, i, low, high);
      }
    }
    assert FreshAt(before, keys, more, n, low, higher);
  }

  lemma BatchPutNext(before: map<Key, int>, mid: map<Key, int>, keys: seq<Key>, handles: seq<int>, h: int)
    requires BatchPut(before, mid, keys, handles)
    requires |handles| < |keys|
    requires keys[|handles|] in mid ==> mid[keys[|handles|]] == h
    ensures BatchPut(before, mid[keys[|handles|] := h], keys, handles + [h])
  {
    KeysOfNext(keys, |handles|);
  }

  /** Exactly the first |handles| keys are gone; a key popped twice answers -1 the second time. */
  ghost predicate BatchPop(before: map<Key, int>, after: map<Key, int>, keys: seq<Key>, handles: seq<int>) {
    && |handles| <= |keys|
    && after == before - KeysOf(keys[..|handles|])
    && forall j :: 0 <= j < |handles| ==> handles[j] == LookupIn(before - KeysOf(keys[..j]), keys[j])
  }

  lemma BatchPopStart(m: map<Key, int>, keys: seq<Key>)
    ensures BatchPop(m, m, keys, [])
  {
    assert KeysOf(keys[..0]) == {};
    assert m - {} == m;
  }

  lemma BatchPopNext(before: map<Key, int>, mid: map<Key, int>, keys: seq<Key>, handles: seq<int>, h: int)
    requires BatchPop(before, mid, keys, handles)
    requires |handles| < |keys|
    requires h == LookupIn(mid, keys[|handles|])
    ensures BatchPop(before, mid - {keys[|handles|]}, keys, handles + [h])
  {
    KeysOfNext(keys, |handles|);
    var gone := KeysOf(keys[..|handles|]);
    assert before - (gone + {keys[|handles|]}) == (before - gone) - {keys[|handles|]};
  }

  lemma SomeFull(slots: seq<Slot>, i: nat)
    requires i < |slots| && slots[i].state.Full?
    ensures |SlotsIn(slots, Full)| > 0
  {
    assert i in SlotsIn(slots, Full);
  }

  lemma LiveHandleIsBound(slots: seq<Slot>, handle: int)
    requires DistinctKeys(slots)
    ensures LiveHandle(slots, handle) <==> handle in Bindings(slots).Values
  {
    if LiveHandle(slots, handle) {
      var i :| 0 <= i < |slots| && slots[i].state.Full? && slots[i].handle == handle;
      SlotBinds(slots, i, slots[i].key);
      assert slots[i].key in Bindings(slots);
    }
    if handle in Bindings(slots).Values {
      var key :| key in Bindings(slots) && Bindings(slots)[key] == handle;
      var i := BoundSlot(slots, key);
    }
  }

  // ---- when a put fails ----

  /** A new key has to grow the table and can. */
  ghost predicate Grows(s: IndexState, tableAlloc: bool) {
    MustGrow(s) && s.epoch < UINT64_MAX && 2 * |s.slots| <= SIZE_MAX / SLOT_BYTES && tableAlloc
  }

  /** The growth a new key asks for fails with `code`. */
  ghost predicate GrowthFails(code: PutError, tableAlloc: bool, s: IndexState) {
    MustGrow(s) &&
    match code
    case CapacityExhausted =>
      |s.slots| > SSIZE_MAX / 2 || (s.epoch < UINT64_MAX && 2 * |s.slots| > SIZE_MAX / SLOT_BYTES)
    case EpochExhausted => |s.slots| <= SSIZE_MAX / 2 && s.epoch == UINT64_MAX
    case NoMemory => s.epoch < UINT64_MAX && 2 * |s.slots| <= SIZE_MAX / SLOT_BYTES && !tableAlloc
    case _ => false
  }

  /** The first free slot on the probe path has used up its generations. */
  ghost predicate WornOut(s: IndexState, hash: nat) {
    exists i :: FirstFree(s.slots, hash, i) && s.slots[i].generation >= UINT32_MAX
  }

  lemma WornOutAt(s: IndexState, hash: nat, i: nat)
    requires FirstFree(s.slots, hash, i)
    ensures i < |s.slots| && (WornOut(s, hash) <==> s.slots[i].generation >= UINT32_MAX)
  {
    if WornOut(s, hash) {
      var j :| FirstFree(s.slots, hash, j) && s.slots[j].generation >= UINT32_MAX;
      FirstFreeUnique(s.slots, hash, i, j);
    }
  }

  /** Growth happens, is not needed, or fails with a code. */
  lemma GrowthDecided(s: IndexState, tableAlloc: bool)
    requires s.epoch <= UINT64_MAX
    ensures MustGrow(s) && (forall code :: !GrowthFails(code, tableAlloc, s)) <==> Grows(s, tableAlloc)
    ensures !MustGrow(s) ==> forall code :: !GrowthFails(code, tableAlloc, s)
    ensures !GrowthFails(GenerationExhausted, tableAlloc, s)
  {
    if MustGrow(s) && !Grows(s, tableAlloc) {
      assert || GrowthFails(CapacityExhausted, tableAlloc, s)
             || GrowthFails(EpochExhausted, tableAlloc, s)
             || GrowthFails(NoMemory, tableAlloc, s);
    }
  }

  ghost predicate ChoiceFails(code: PutError, hash: nat, tableAlloc: bool, s: IndexState) {
    || GrowthFails(code, tableAlloc, s)
    || (code == GenerationExhausted && !MustGrow(s) && WornOut(s, hash))
  }

  ghost predicate HandleFails(code: PutError, requested: int, keyAlloc: bool, nextHandle: int, m: map<Key, int>) {
    match code
    case HandlesExhausted => nextHandle == 0
    case HandleInUse => nextHandle > 0 && requested > 0 && requested in m.Values
    case BelowHighWater => 0 < requested < nextHandle && requested !in m.Values
    case NoMemory =>
      nextHandle > 0 && (requested > 0 ==> requested >= nextHandle && requested !in m.Values) && !keyAlloc
    case _ => false
  }

  /** A slot is chosen: the table grew, or did not have to and the slot on the probe path is usable. */
  ghost predicate SlotChosen(hash: nat, tableAlloc: bool, s: IndexState) {
    Grows(s, tableAlloc) || (!MustGrow(s) && !WornOut(s, hash))
  }

  lemma ChoiceDecided(hash: nat, tableAlloc: bool, s: IndexState)
    requires s.epoch <= UINT64_MAX
    ensures SlotChosen(hash, tableAlloc, s) <==> forall code :: !ChoiceFails(code, hash, tableAlloc, s)
  {
    GrowthDecided(s, tableAlloc);
    if !SlotChosen(hash, tableAlloc, s) {
      assert MustGrow(s) || ChoiceFails(GenerationExhausted, hash, tableAlloc, s);
      if MustGrow(s) {
        var code :| GrowthFails(code, tableAlloc, s);
        assert ChoiceFails(code, hash, tableAlloc, s);
      }
    }
  }

  /** Adding a new key fails: first for want of a slot, then for want of a handle or of memory for the key. */
  ghost predicate AddFails(code: PutError, hash: nat, requested: int, tableAlloc: bool, keyAlloc: bool, s: IndexState,
                           m: map<Key, int>)
  {
    || ChoiceFails(code, hash, tableAlloc, s)
    || (SlotChosen(hash, tableAlloc, s) && HandleFails(code, requested, keyAlloc, s.nextHandle, m))
  }

  /** The put gets past its argument checks and the key is not bound. */
  ghost predicate Adds(key: Key, requested: int, m: map<Key, int>) {
    key != [] && requested >= 0 && key !in m
  }

  /** The put fails with `code`, in terms of the arguments and the state before the call; "full" is not among the
      codes, and no two codes hold together. */
  ghost predicate PutFails(code: PutError, key: Key, requested: int, tableAlloc: bool, keyAlloc: bool, s: IndexState,
                           m: map<Key, int>, hashOf: HashFn)
  {
    || (code == EmptyKey && key == [])
    || (code == NegativeHandle && key != [] && requested < 0)
    || (code == HandleImmutable && key != [] && requested > 0 && key in m && m[key] != requested)
    || (Adds(key, requested, m) && AddFails(code, hashOf(key), requested, tableAlloc, keyAlloc, s, m))
  }
}
