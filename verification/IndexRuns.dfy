/**
 Runs of the native handle index.

 Each locked operation of the index is one or two atomic events on an `IndexState`. The lemmas are about every
 run: what each event keeps, that handles are never issued twice, and when a handle reference still resolves.
 */
module IndexRuns {
  import opened Bytes
  import opened Probing
  import opened SlotTable

  datatype IndexState = IndexState(
    slots: seq<Slot>,
    size: nat,
    tombstones: nat,
    nextHandle: int,
    namespaceId: nat,
    epoch: nat)

  /** ceil(0.7 * capacity), the occupancy at which the index grows before a new key goes in. */
  function Threshold(cap: nat): (t: nat)
    ensures 10 * t >= 7 * cap
    ensures 10 * t <= 7 * cap + 9
  {
    (cap / 10) * 7 + ((cap % 10) * 7 + 9) / 10
  }

  /** The allocator's next value, with the exhausted marker 0 read as one past the largest handle. */
  function HighWater(nextHandle: int): int {
    if nextHandle == 0 then INT64_MAX + 1 else nextHandle
  }

  function SuccHandle(handle: int): int {
    if handle == INT64_MAX then 0 else handle + 1
  }

  ghost predicate HandlesOk(slots: seq<Slot>, high: int) {
    && (forall i :: 0 <= i < |slots| && slots[i].state.Full? ==> 1 <= slots[i].handle < high)
    && (forall i, j ::
          (0 <= i < |slots| && 0 <= j < |slots| && slots[i].state.Full? && slots[j].state.Full?
           && slots[i].handle == slots[j].handle) ==> i == j)
  }

  ghost predicate Inv(s: IndexState, hashOf: HashFn) {
    && 16 <= |s.slots|
    && WellFormed(s.slots, hashOf)
    && s.size == |SlotsIn(s.slots, Full)|
    && s.tombstones == |SlotsIn(s.slots, Tombstone)|
    && s.size + s.tombstones <= Threshold(|s.slots|)
    && 0 <= s.nextHandle <= INT64_MAX
    && HandlesOk(s.slots, HighWater(s.nextHandle))
  }

  /** The growth rule always leaves room: a search of a reachable table never runs off its end. */
  lemma InvLeavesEmptySlot(s: IndexState, hashOf: HashFn)
    requires Inv(s, hashOf)
    ensures HasEmpty(s.slots)
  {
    FullPlusTombBelowCapacity(s.slots);
  }

  lemma InvDistinct(s: IndexState, hashOf: HashFn)
    requires Inv(s, hashOf)
    ensures DistinctKeys(s.slots)
  {
  }

  datatype Event =
    | Stay
    | Burn(handle: int)                      // a handle was taken but the key copy failed
    | Insert(key: Key, handle: int, at: nat)
    | Remove(at: nat)
    | Resize

  /** Seven tenths of the slots are full or tombstones: only then does a new key grow the table. */
  ghost predicate MustGrow(s: IndexState) {
    10 * (s.size + s.tombstones) >= 7 * |s.slots|
  }

  ghost predicate FreshHandle(s: IndexState, handle: int) {
    0 < s.nextHandle <= handle <= INT64_MAX
  }

  ghost predicate Step(s: IndexState, e: Event, t: IndexState, hashOf: HashFn) {
    match e
    case Stay => t == s
    case Burn(h) => FreshHandle(s, h) && t == s.(nextHandle := SuccHandle(h))
    case Insert(k, h, i) =>
      && k != []
      && FreshHandle(s, h)
      && FirstFree(s.slots, hashOf(k), i)
      && DistinctKeys(s.slots) && k !in Bindings(s.slots)
      && !MustGrow(s)
      && t == s.(slots := s.slots[i := FullSlot(k, h, hashOf(k), s.slots[i].generation + 1)],
                 size := s.size + 1,
                 tombstones := |SlotsIn(s.slots, Tombstone) - {i}|,
                 nextHandle := SuccHandle(h))
    case Remove(i) =>
      && i < |s.slots|
      && s.slots[i].state.Full?
      && t == s.(slots := s.slots[i := Slot(Tombstone, [], 0, 0, 0, s.slots[i].generation)],
                 size := |SlotsIn(s.slots, Full) - {i}|,
                 tombstones := s.tombstones + 1)
    case Resize =>
      && MustGrow(s)
      && |t.slots| == 2 * |s.slots|
      && WellFormed(t.slots, hashOf)
      && DistinctKeys(s.slots) && Bindings(t.slots) == Bindings(s.slots)
      && SlotsIn(t.slots, Tombstone) == {}
      && t == s.(slots := t.slots, tombstones := 0, epoch := s.epoch + 1)
  }

  lemma InsertIsStep(s: IndexState, k: Key, h: int, i: nat, hashOf: HashFn, t: IndexState)
    requires k != [] && FreshHandle(s, h) && FirstFree(s.slots, hashOf(k), i)
    requires DistinctKeys(s.slots) && k !in Bindings(s.slots)
    requires !MustGrow(s)
    requires t.slots == s.slots[i := FullSlot(k, h, hashOf(k), s.slots[i].generation + 1)]
    requires t.size == s.size + 1 && t.tombstones == |SlotsIn(s.slots, Tombstone) - {i}|
    requires t.nextHandle == SuccHandle(h) && t.namespaceId == s.namespaceId && t.epoch == s.epoch
    ensures Step(s, Insert(k, h, i), t, hashOf)
  {
  }

  lemma RemoveIsStep(s: IndexState, i: nat, hashOf: HashFn, t: IndexState)
    requires Inv(s, hashOf) && i < |s.slots| && s.slots[i].state.Full? && s.size > 0
    requires t == s.(slots := s.slots[i := Slot(Tombstone, [], 0, 0, 0, s.slots[i].generation)],
                     size := s.size - 1, tombstones := s.tombstones + 1)
    ensures Step(s, Remove(i), t, hashOf)
  {
    hide WellFormed, HandlesOk;
    assert i in SlotsIn(s.slots, Full);
  }

  lemma HandlesFollowBindings(a: seq<Slot>, b: seq<Slot>, high: int)
    requires DistinctKeys(a) && DistinctKeys(b)
    requires Bindings(a) == Bindings(b)
    requires HandlesOk(a, high)
    ensures HandlesOk(b, high)
  {
    forall i | 0 <= i < |b| && b[i].state.Full?
      ensures exists j :: Holds(a, j, b[i].key) && a[j].handle == b[i].handle
    {
      SlotBinds(b, i, b[i].key);
      var j := BoundSlot(a, b[i].key);
    }
    forall i, i' | 0 <= i < |b| && 0 <= i' < |b| && b[i].state.Full? && b[i'].state.Full?
                   && b[i].handle == b[i'].handle
      ensures i == i'
    {
      var j :| Holds(a, j, b[i].key) && a[j].handle == b[i].handle;
      var j' :| Holds(a, j', b[i'].key) && a[j'].handle == b[i'].handle;
      assert j == j';
    }
  }

  lemma HandlesAfterInsert(slots: seq<Slot>, i: nat, s: Slot, high: int)
    requires HandlesOk(slots, high)
    requires i < |slots| && !slots[i].state.Full? && s.state.Full?
    requires 1 <= high <= s.handle
    ensures HandlesOk(slots[i := s], s.handle + 1)
  {
  }

  lemma InsertCounts(slots: seq<Slot>, i: nat)
    requires i < |slots| && !slots[i].state.Full?
    ensures |SlotsIn(slots, Full) + {i}| == |SlotsIn(slots, Full)| + 1
    ensures |SlotsIn(slots, Tombstone) - {i}| <= |SlotsIn(slots, Tombstone)|
  {
    assert i !in SlotsIn(slots, Full);
    SubsetSize(SlotsIn(slots, Tombstone) - {i}, SlotsIn(slots, Tombstone));
  }

  lemma InsertKeepsInv(s: IndexState, k: Key, h: int, i: nat, t: IndexState, hashOf: HashFn)
    requires Inv(s, hashOf)
    requires Step(s, Insert(k, h, i), t, hashOf)
    ensures Inv(t, hashOf)
    ensures Bindings(t.slots) == Bindings(s.slots)[k := h]
  {
    hide SlotsReachable, Reachable, Bindings, HandlesOk, SlotsIn;
    var b := s.slots[i := t.slots[i]];
    assert HandlesOk(b, h + 1) by {
      HandlesAfterInsert(s.slots, i, t.slots[i], s.nextHandle);
    }
    InsertCounts(s.slots, i);
    FirstFreeCanHost(s.slots, hashOf, k, i);
    InsertKeepsTable(s.slots, hashOf, i, t.slots[i]);
  }

  lemma HandlesAfterRemove(slots: seq<Slot>, i: nat, t: Slot, high: int)
    requires HandlesOk(slots, high)
    requires i < |slots| && !t.state.Full?
    ensures HandlesOk(slots[i := t], high)
  {
  }

  lemma RemoveKeepsInv(s: IndexState, i: nat, t: IndexState, hashOf: HashFn)
    requires Inv(s, hashOf)
    requires Step(s, Remove(i), t, hashOf)
    ensures Inv(t, hashOf)
    ensures Bindings(t.slots) == Bindings(s.slots) - {s.slots[i].key}
  {
    hide SlotsReachable, Reachable, Bindings, HandlesOk;
    HandlesAfterRemove(s.slots, i, t.slots[i], HighWater(s.nextHandle));
    RemoveKeepsTable(s.slots, hashOf, i, t.slots[i]);
    assert i in SlotsIn(s.slots, Full);
    assert i !in SlotsIn(s.slots, Tombstone);
  }

  lemma ResizeKeepsInv(s: IndexState, t: IndexState, hashOf: HashFn)
    requires Inv(s, hashOf)
    requires Step(s, Resize, t, hashOf)
    ensures Inv(t, hashOf)
  {
    FullSlotsCountKeys(s.slots);
    FullSlotsCountKeys(t.slots);
    HandlesFollowBindings(s.slots, t.slots, HighWater(s.nextHandle));
  }

  /** Every event keeps the invariant. */
  lemma StepKeepsInv(s: IndexState, e: Event, t: IndexState, hashOf: HashFn)
    requires Inv(s, hashOf)
    requires Step(s, e, t, hashOf)
    ensures Inv(t, hashOf)
  {
    match e
    case Stay =>
    case Burn(h) =>
    case Insert(k, h, i) => InsertKeepsInv(s, k, h, i, t, hashOf);
    case Remove(i) => RemoveKeepsInv(s, i, t, hashOf);
    case Resize => ResizeKeepsInv(s, t, hashOf);
  }

  lemma StepMonotone(s: IndexState, e: Event, t: IndexState, hashOf: HashFn)
    requires Inv(s, hashOf)
    requires Step(s, e, t, hashOf)
    ensures HighWater(s.nextHandle) <= HighWater(t.nextHandle)
    ensures s.namespaceId == t.namespaceId
    ensures t.epoch == if e.Resize? then s.epoch + 1 else s.epoch
  {
  }

  lemma StepIssuesHandle(s: IndexState, e: Event, t: IndexState, hashOf: HashFn)
    requires Inv(s, hashOf)
    requires Step(s, e, t, hashOf)
    requires e.Insert?
    ensures HighWater(s.nextHandle) <= e.handle < HighWater(t.nextHandle)
  {
  }

  // ---- runs ----

  /** A new index: a power of two of empty slots, no key, the first handle and epoch still to be used. */
  ghost predicate Init(s: IndexState) {
    && 16 <= |s.slots| && IsPow2(|s.slots|)
    && (forall i :: 0 <= i < |s.slots| ==> s.slots[i] == EMPTY_SLOT)
    && s.size == 0 && s.tombstones == 0 && s.nextHandle == 1 && s.epoch == 1
  }

  lemma InitInv(s: IndexState, hashOf: HashFn)
    requires Init(s)
    ensures Inv(s, hashOf)
  {
    assert SlotsIn(s.slots, Full) == {} && SlotsIn(s.slots, Tombstone) == {};
  }

  ghost predicate StepAt(h: seq<IndexState>, ev: seq<Event>, j: int, hashOf: HashFn) {
    && 0 <= j < |ev|
    && j + 1 < |h|
    && Step(h[j], ev[j], h[j + 1], hashOf)
  }

  /** A run starts with a new index and follows the step rules; nothing else is assumed of its states. */
  ghost predicate IsRun(h: seq<IndexState>, ev: seq<Event>, hashOf: HashFn) {
    && |h| == |ev| + 1
    && Init(h[0])
    && (forall j :: 0 <= j < |ev| ==> StepAt(h, ev, j, hashOf))
  }

  lemma {:induction false} RunInv(h: seq<IndexState>, ev: seq<Event>, hashOf: HashFn, j: nat)
    requires IsRun(h, ev, hashOf)
    requires j < |h|
    ensures Inv(h[j], hashOf)
  {
    hide Inv, Init, Step;
    if j == 0 {
      InitInv(h[0], hashOf);
    } else {
      RunInv(h, ev, hashOf, j - 1);
      assert StepAt(h, ev, j - 1, hashOf);
      StepKeepsInv(h[j - 1], ev[j - 1], h[j], hashOf);
    }
  }

  lemma RunExtend(h: seq<IndexState>, ev: seq<Event>, e: Event, t: IndexState, hashOf: HashFn)
    requires IsRun(h, ev, hashOf)
    requires Step(h[|ev|], e, t, hashOf)
    ensures IsRun(h + [t], ev + [e], hashOf)
  {
    hide Step, Init;
    var h', ev' := h + [t], ev + [e];
    forall j | 0 <= j < |ev'|
      ensures StepAt(h', ev', j, hashOf)
    {
      assert j == |ev| || StepAt(h, ev, j, hashOf);
    }
  }

  lemma {:induction false} HighWaterMonotone(h: seq<IndexState>, ev: seq<Event>, hashOf: HashFn, a: nat, b: nat)
    requires IsRun(h, ev, hashOf)
    requires a <= b < |h|
    ensures HighWater(h[a].nextHandle) <= HighWater(h[b].nextHandle)
    ensures h[a].namespaceId == h[b].namespaceId
    ensures h[a].epoch <= h[b].epoch
    decreases b
  {
    hide Inv, Step;
    if a == b {
    } else {
      HighWaterMonotone(h, ev, hashOf, a, b - 1);
      RunInv(h, ev, hashOf, b - 1);
      assert StepAt(h, ev, b - 1, hashOf);
      StepMonotone(h[b - 1], ev[b - 1], h[b], hashOf);
    }
  }

  /** Handles are issued in strictly increasing order over the whole run, so none is ever issued twice. */
  lemma HandlesIncrease(h: seq<IndexState>, ev: seq<Event>, hashOf: HashFn, a: nat, b: nat)
    requires IsRun(h, ev, hashOf)
    requires a < b < |ev|
    requires ev[a].Insert? && ev[b].Insert?
    ensures ev[a].handle < ev[b].handle
  {
    hide Inv, Step;
    RunInv(h, ev, hashOf, a);
    RunInv(h, ev, hashOf, b);
    assert StepAt(h, ev, a, hashOf) && StepAt(h, ev, b, hashOf);
    StepIssuesHandle(h[a], ev[a], h[a + 1], hashOf);
    StepIssuesHandle(h[b], ev[b], h[b + 1], hashOf);
    HighWaterMonotone(h, ev, hashOf, a + 1, b);
  }

  // ---- growth over a run ----

  /** How many keys have been inserted. */
  ghost function Inserts(ev: seq<Event>): nat {
    if ev == [] then 0 else Inserts(ev[..|ev| - 1]) + if ev[|ev| - 1].Insert? then 1 else 0
  }

  lemma OccupiedStep(s: IndexState, e: Event, t: IndexState, hashOf: HashFn)
    requires Inv(s, hashOf) && Step(s, e, t, hashOf)
    ensures t.size + t.tombstones <= s.size + s.tombstones + if e.Insert? then 1 else 0
    ensures |t.slots| == if e.Resize? then 2 * |s.slots| else |s.slots|
    ensures e.Resize? ==> MustGrow(s)
  {
    match e
    case Insert(k, h, i) => InsertCounts(s.slots, i);
    case Remove(i) => assert i in SlotsIn(s.slots, Full);
    case _ =>
  }

  /** The table never outgrows its use: it has its first size, or fewer than three slots for every key inserted. */
  lemma {:induction false} CapacityIsLinear(h: seq<IndexState>, ev: seq<Event>, hashOf: HashFn, j: nat)
    requires IsRun(h, ev, hashOf) && j < |h|
    ensures h[j].size + h[j].tombstones <= Inserts(ev[..j])
    ensures |h[j].slots| == |h[0].slots| || 7 * |h[j].slots| <= 20 * Inserts(ev[..j])
  {
    hide Inv, Step;
    if j == 0 {
    } else {
      CapacityIsLinear(h, ev, hashOf, j - 1);
      RunInv(h, ev, hashOf, j - 1);
      assert StepAt(h, ev, j - 1, hashOf);
      OccupiedStep(h[j - 1], ev[j - 1], h[j], hashOf);
      assert ev[..j][..j - 1] == ev[..j - 1];
    }
  }

  ghost predicate HoldsHandle(s: IndexState, i: int, key: Key, handle: int) {
    Holds(s.slots, i, key) && s.slots[i].handle == handle
  }

  ghost predicate BoundTo(s: IndexState, key: Key, handle: int) {
    exists i :: HoldsHandle(s, i, key, handle)
  }

  /** One event back: a handle that was already issued and is live now was live before, for the same key. */
  lemma LiveBefore(s: IndexState, e: Event, t: IndexState, hashOf: HashFn, key: Key, handle: int)
    requires Inv(s, hashOf) && Inv(t, hashOf)
    requires Step(s, e, t, hashOf)
    requires handle < HighWater(s.nextHandle)
    requires BoundTo(t, key, handle)
    ensures BoundTo(s, key, handle)
  {
    var j :| HoldsHandle(t, j, key, handle);
    if e.Resize? {
      SlotBinds(t.slots, j, key);
      var i := BoundSlot(s.slots, key);
      assert HoldsHandle(s, i, key, handle);
    } else {
      assert HoldsHandle(s, j, key, handle);
    }
  }

  lemma {:induction false} LiveThroughout(h: seq<IndexState>, ev: seq<Event>, hashOf: HashFn,
                                          a: nat, j: nat, b: nat, key: Key, handle: int)
    requires IsRun(h, ev, hashOf)
    requires a <= j <= b < |h|
    requires handle < HighWater(h[a].nextHandle)
    requires BoundTo(h[b], key, handle)
    ensures BoundTo(h[j], key, handle)
    decreases b
  {
    hide Inv, Step;
    if j == b {
    } else {
      HighWaterMonotone(h, ev, hashOf, a, b - 1);
      RunInv(h, ev, hashOf, b - 1);
      RunInv(h, ev, hashOf, b);
      assert StepAt(h, ev, b - 1, hashOf);
      LiveBefore(h[b - 1], ev[b - 1], h[b], hashOf, key, handle);
      LiveThroughout(h, ev, hashOf, a, j, b - 1, key, handle);
    }
  }

  /** A handle names one key for ever: two states of a run never bind it to different keys. */
  lemma HandleNamesOneKey(h: seq<IndexState>, ev: seq<Event>, hashOf: HashFn,
                          a: nat, b: nat, k1: Key, k2: Key, handle: int)
    requires IsRun(h, ev, hashOf)
    requires a <= b < |h|
    requires BoundTo(h[a], k1, handle) && BoundTo(h[b], k2, handle)
    ensures k1 == k2
  {
    RunInv(h, ev, hashOf, a);
    var i :| HoldsHandle(h[a], i, k1, handle);
    LiveThroughout(h, ev, hashOf, a, a, b, k2, handle);
    var j :| HoldsHandle(h[a], j, k2, handle);
    assert i == j;
  }

  // ---- handle references ----

  datatype HandleRef = HandleRef(namespaceId: nat, epoch: nat, slot: nat, generation: nat, handle: int)

  /** `ref` is what get_handle_ref answers for `key` in state s. */
  ghost predicate IssuedFor(s: IndexState, key: Key, ref: HandleRef) {
    && Holds(s.slots, ref.slot, key)
    && ref == HandleRef(s.namespaceId, s.epoch, ref.slot, s.slots[ref.slot].generation, s.slots[ref.slot].handle)
  }

  function Resolve(s: IndexState, ref: HandleRef): int {
    if && ref.namespaceId == s.namespaceId
       && ref.epoch == s.epoch
       && ref.slot < |s.slots|
       && s.slots[ref.slot].state.Full?
       && s.slots[ref.slot].generation == ref.generation
       && s.slots[ref.slot].handle == ref.handle
    then ref.handle
    else -1
  }

  ghost predicate Bound(s: IndexState, key: Key) {
    exists i :: Holds(s.slots, i, key)
  }

  ghost predicate StaysBound(h: seq<IndexState>, a: nat, b: nat, key: Key)
    requires a <= b < |h|
  {
    forall j :: a <= j <= b ==> Bound(h[j], key)
  }

  lemma IssueSurvivesStep(s: IndexState, e: Event, t: IndexState, hashOf: HashFn, key: Key, ref: HandleRef)
    requires Inv(s, hashOf)
    requires Step(s, e, t, hashOf)
    requires !e.Resize?
    requires IssuedFor(s, key, ref)
    requires Bound(t, key)
    ensures IssuedFor(t, key, ref)
  {
    var j :| Holds(t.slots, j, key);
    match e
    case Stay =>
    case Burn(_) =>
    case Insert(k, _, i) =>
    case Remove(i) =>
      assert Holds(s.slots, j, key);
  }

  lemma BoundAfterStep(s: IndexState, e: Event, t: IndexState, hashOf: HashFn, key: Key)
    requires Inv(s, hashOf) && Inv(t, hashOf)
    requires Step(s, e, t, hashOf) && !e.Remove?
    requires Bound(s, key)
    ensures Bound(t, key)
  {
    var i :| Holds(s.slots, i, key);
    if e.Resize? {
      SlotBinds(s.slots, i, key);
      var j := BoundSlot(t.slots, key);
    } else {
      assert Holds(t.slots, i, key);
    }
  }

  /** A key is bound until a removal. */
  lemma {:induction false} BoundUntilRemoved(h: seq<IndexState>, ev: seq<Event>, hashOf: HashFn,
                                             a: nat, b: nat, key: Key)
    requires IsRun(h, ev, hashOf)
    requires a <= b < |h|
    requires Bound(h[a], key)
    requires forall j :: a <= j < b ==> !ev[j].Remove?
    ensures StaysBound(h, a, b, key)
    decreases b
  {
    hide Inv, Step, Bound;
    if a == b {
    } else {
      BoundUntilRemoved(h, ev, hashOf, a, b - 1, key);
      RunInv(h, ev, hashOf, b - 1);
      RunInv(h, ev, hashOf, b);
      assert StepAt(h, ev, b - 1, hashOf);
      BoundAfterStep(h[b - 1], ev[b - 1], h[b], hashOf, key);
    }
  }

  /** Without a resize a bound key keeps its slot, generation and handle. */
  lemma {:induction false} SlotStays(h: seq<IndexState>, ev: seq<Event>, hashOf: HashFn,
                                     a: nat, b: nat, key: Key, ref: HandleRef)
    requires IsRun(h, ev, hashOf)
    requires a <= b < |h|
    requires IssuedFor(h[a], key, ref)
    requires StaysBound(h, a, b, key)
    requires h[a].epoch == h[b].epoch
    ensures IssuedFor(h[b], key, ref)
    decreases b
  {
    hide Inv, Step;
    if a == b {
    } else {
      HighWaterMonotone(h, ev, hashOf, a, b - 1);
      RunInv(h, ev, hashOf, b - 1);
      assert StepAt(h, ev, b - 1, hashOf);
      StepMonotone(h[b - 1], ev[b - 1], h[b], hashOf);
      SlotStays(h, ev, hashOf, a, b - 1, key, ref);
      IssueSurvivesStep(h[b - 1], ev[b - 1], h[b], hashOf, key, ref);
    }
  }

  /** The reference contract: it resolves exactly while its key stayed bound and no resize intervened. */
  lemma RefResolvesIffBound(h: seq<IndexState>, ev: seq<Event>, hashOf: HashFn,
                            a: nat, b: nat, key: Key, ref: HandleRef)
    requires IsRun(h, ev, hashOf)
    requires a <= b < |h|
    requires IssuedFor(h[a], key, ref)
    ensures Resolve(h[b], ref) == ref.handle <==> h[b].epoch == h[a].epoch && StaysBound(h, a, b, key)
    ensures Resolve(h[b], ref) == ref.handle ==> BoundTo(h[b], key, ref.handle)
    ensures Resolve(h[b], ref) != ref.handle ==> Resolve(h[b], ref) == -1
    ensures 1 <= ref.handle
  {
    RunInv(h, ev, hashOf, a);
    assert HoldsHandle(h[a], ref.slot, key, ref.handle);
    if h[b].epoch == h[a].epoch && StaysBound(h, a, b, key) {
      SlotStays(h, ev, hashOf, a, b, key, ref);
      assert HoldsHandle(h[b], ref.slot, key, ref.handle);
    } else if Resolve(h[b], ref) == ref.handle {
      var k := h[b].slots[ref.slot].key;
      assert HoldsHandle(h[b], ref.slot, k, ref.handle);
      HandleNamesOneKey(h, ev, hashOf, a, b, key, k, ref.handle);
      forall j | a <= j <= b
        ensures Bound(h[j], key)
      {
        LiveThroughout(h, ev, hashOf, a, j, b, key, ref.handle);
        var i :| HoldsHandle(h[j], i, key, ref.handle);
      }
    }
  }
}
