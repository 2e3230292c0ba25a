/**
 The immutable rehashed copy of the index, and packed lookup, which answers many keys through one byte buffer.

 The frozen table is a fresh array that no operation of the mutable index may touch, so its answers are those of
 the moment it was made, whatever is put or popped later.
 */
module FrozenIndex {
  import opened Bytes
  import opened IntCodec
  import opened Probing
  import opened SlotTable
  import opened IndexRuns
  import opened Rehash
  import opened HandleIndex

  const PACKED_LOOKUP_MAX_KEYS: nat := 65536

  datatype FreezeError = Overflow | FreezeNoMemory | IdentityExhausted

  class NativeFrozenHandleIndex {
    const hashOf: HashFn
    const slots: array<Slot>
    const size: nat
    const keyBytes: seq<byte>
    const snapshotId: nat
    const sourceNamespaceId: nat
    const sourceEpoch: nat

    constructor (hashOf: HashFn, slots: array<Slot>, size: nat, keyBytes: seq<byte>, snapshotId: nat,
                 sourceNamespaceId: nat, sourceEpoch: nat)
      ensures this.hashOf == hashOf && this.slots == slots && this.size == size && this.keyBytes == keyBytes
      ensures this.snapshotId == snapshotId
      ensures this.sourceNamespaceId == sourceNamespaceId && this.sourceEpoch == sourceEpoch
    {
      this.hashOf, this.slots, this.size, this.keyBytes := hashOf, slots, size, keyBytes;
      this.snapshotId, this.sourceNamespaceId, this.sourceEpoch := snapshotId, sourceNamespaceId, sourceEpoch;
    }

    ghost predicate Valid()
      reads slots
    {
      WellFormed(slots[..], hashOf) && HandlesInRange(Bindings(slots[..]))
    }

    ghost function Map(): map<Key, int>
      requires Valid()
      reads slots
    {
      Bindings(slots[..])
    }

    method Lookup(key: Key) returns (handle: int)
      requires Valid()
      ensures handle == LookupIn(Map(), key)
    {
      var hash := hashOf(key);
      var found, idx := FindSlot(slots, hashOf, key, hash);
      if found {
        SlotBinds(slots[..], idx, key);
      }
      handle := if idx >= 0 && found then slots[idx].handle else -1;
    }

    /** Answer `count` keys packed end to end, writing each handle as eight little-endian bytes. */
    method LookupPacked(keys: seq<byte>, offsets: seq<byte>, output: array<byte>) returns (r: PackedResult)
      requires Valid()
      requires (output as object) != (slots as object)
      modifies output
      ensures r.Accepted? <==> PackedOk(offsets, |keys|) && output.Length == 8 * (|offsets| / 8 - 1)
      ensures r.Accepted? ==> r.count == |offsets| / 8 - 1
      ensures r.Accepted? ==> forall i :: 0 <= i < r.count ==> Answers(output[..], keys, offsets, i, Map())
      ensures r.Rejected? ==> output[..] == old(output[..])
    {
      var checked := ValidatePackedOffsets(offsets, |keys|);
      if checked.Rejected? {
        return checked;
      }
      if output.Length != checked.count * 8 {
        return Rejected(OutputLength);
      }
      hide PackedOk, Answers, WellFormed, Bindings;
      ghost var m := Map();
      var index := 0;
      while index < checked.count
        invariant 0 <= index <= checked.count
        invariant Valid() && Map() == m
        invariant forall i :: 0 <= i < index ==> Answers(output[..], keys, offsets, i, m)
      {
        AnswerOne(keys, offsets, output, index);
        index := index + 1;
      }
      return checked;
    }

    /** Looks one span up and stores its handle behind those already stored. */
    method AnswerOne(keys: seq<byte>, offsets: seq<byte>, output: array<byte>, index: nat)
      requires Valid()
      requires (output as object) != (slots as object)
      requires PackedOk(offsets, |keys|) && index < |offsets| / 8 - 1 && output.Length == 8 * (|offsets| / 8 - 1)
      requires forall i :: 0 <= i < index ==> Answers(output[..], keys, offsets, i, Map())
      modifies output
      ensures Valid() && Map() == old(Map())
      ensures forall i :: 0 <= i < index + 1 ==> Answers(output[..], keys, offsets, i, Map())
    {
      hide WellFormed, Bindings, Answers, OffsetAt;
      ghost var table := slots[..];
      OffsetOrder(offsets, |keys|, index, index + 1);
      OffsetOrder(offsets, |keys|, index + 1, |offsets| / 8 - 1);
      var lo, hi := OffsetAt(offsets, index), OffsetAt(offsets, index + 1);
      var handle := Lookup(keys[lo..hi]);
      ghost var was := output[..];
      StoreLe64(output, 8 * index, HandleBits(handle));
      assert slots[..] == table;
      assert output[..][..8 * index] == was[..8 * index];
      AnswersStored(output[..], keys, offsets, index, Map(), handle);
      AnswersKept(was, output[..], keys, offsets, index, Map());
    }
  }

  // ---- freezing ----

  /** Total length of the keys in a run of slots. */
  ghost function KeyLengths(slots: seq<Slot>): nat {
    if slots == [] then 0
    else KeyLengths(slots[..|slots| - 1]) + (if slots[|slots| - 1].state.Full? then |slots[|slots| - 1].key| else 0)
  }

  lemma KeyLengthsNext(slots: seq<Slot>, i: nat)
    requires i < |slots|
    ensures KeyLengths(slots[..i + 1]) == KeyLengths(slots[..i]) + (if slots[i].state.Full? then |slots[i].key| else 0)
  {
    assert slots[..i + 1][..i] == slots[..i];
  }

  lemma FullNext(slots: seq<Slot>, i: nat)
    requires i < |slots|
    ensures |SlotsIn(slots[..i + 1], Full)| == |SlotsIn(slots[..i], Full)| + (if slots[i].state.Full? then 1 else 0)
  {
    var a, b := SlotsIn(slots[..i], Full), SlotsIn(slots[..i + 1], Full);
    assert b == if slots[i].state.Full? then a + {i} else a;
  }

  method FrozenCapacity(size: nat) returns (r: Option<nat>)
    ensures r == if RoundUp(16, 2 * size) <= SSIZE_MAX then Some(RoundUp(16, 2 * size)) else None
    ensures r.Some? ==> IsPow2(r.value) && size < r.value && 16 <= r.value
    ensures r.Some? && r.value > 16 ==> r.value < 4 * size
  {
    if size == 0 {
      Sixteen();
      return Some(16);
    }
    if size > SSIZE_MAX / 2 {
      return None;
    }
    r := RoundPow2Checked(if size * 2 < 16 then 16 else size * 2);
  }

  /** Total key bytes of a table, or None when the total would leave Py_ssize_t. */
  method MeasureKeys(slots: array<Slot>, hashOf: HashFn) returns (total: Option<nat>)
    requires WellFormed(slots[..], hashOf)
    ensures total.Some? <==> KeyLengths(slots[..]) <= SSIZE_MAX
    ensures total.Some? ==> total.value == KeyLengths(slots[..])
  {
    var sum := 0;
    var i := 0;
    while i < slots.Length
      invariant 0 <= i <= slots.Length
      invariant sum == KeyLengths(slots[..][..i]) <= SSIZE_MAX
    {
      KeyLengthsNext(slots[..], i);
      if slots[i].state.Full? {
        StoredHash(slots[..], hashOf, i);
        if |slots[i].key| <= 0 || sum > SSIZE_MAX - |slots[i].key| {
          KeyLengthsGrow(slots[..], i + 1);
          return None;
        }
        sum := sum + |slots[i].key|;
      }
      i := i + 1;
    }
    assert slots[..][..i] == slots[..];
    return Some(sum);
  }

  lemma {:induction false} KeyLengthsGrow(slots: seq<Slot>, i: nat)
    requires i <= |slots|
    ensures KeyLengths(slots[..i]) <= KeyLengths(slots)
    decreases |slots| - i
  {
    if i < |slots| {
      KeyLengthsNext(slots, i);
      KeyLengthsGrow(slots, i + 1);
    } else {
      assert slots[..i] == slots;
    }
  }

  /** Copy every binding of `src` into the blank table `dst`; the copy counts come out as the source's own. */
  method CopySlots(src: array<Slot>, dst: array<Slot>, hashOf: HashFn) returns (copied: nat, keyBytes: seq<byte>)
    requires src != dst
    requires WellFormed(src[..], hashOf)
    requires IsPow2(dst.Length)
    requires |SlotsIn(src[..], Full)| < dst.Length
    requires forall j :: 0 <= j < dst.Length ==> dst[j] == EMPTY_SLOT
    modifies dst
    ensures WellFormed(dst[..], hashOf)
    ensures Bindings(dst[..]) == Bindings(src[..])
    ensures copied == |SlotsIn(src[..], Full)|
    ensures |keyBytes| == KeyLengths(src[..])
  {
    hide DistinctKeys, SlotsReachable, Reachable, FirstFree, Bindings, FreeSlotsBlank;
    ghost var was := src[..];
    CopyStart(was, dst[..], hashOf);
    copied, keyBytes := 0, [];
    var i := 0;
    assert SlotsIn(was[..0], Full) == {};
    while i < src.Length
      invariant 0 <= i <= src.Length
      invariant src[..] == was
      invariant Copied(was, dst[..], i, hashOf)
      invariant copied == |SlotsIn(was[..i], Full)|
      invariant |keyBytes| == KeyLengths(was[..i])
    {
      KeyLengthsNext(was, i);
      FullNext(was, i);
      if !src[i].state.Full? {
        CopySkip(was, dst[..], i, hashOf);
      } else {
        CopyKeyAbsent(was, dst[..], i, hashOf);
        CopyHasRoom(was, dst[..], i, hashOf);
        StoredHash(was, hashOf, i);
        var found, idx := FindSlot(dst, hashOf, src[i].key, src[i].hash);
        if idx < 0 || found {
          assert false;  // "frozen index snapshot count mismatch" while copying
        }
        CopyPut(was, dst[..], i, hashOf, idx, src[i]);
        assert dst[..][idx := src[i]] == dst[..idx] + [src[i]] + dst[idx + 1..];
        dst[idx] := src[i];
        keyBytes := keyBytes + src[i].key;
        copied := copied + 1;
      }
      i := i + 1;
    }
    assert was[..i] == was;
    CopyDone(was, dst[..], hashOf);
  }

  /** The snapshot's key bytes or its table would not be addressable. */
  ghost predicate FreezeOverflows(slots: seq<Slot>, count: nat) {
    KeyLengths(slots) > SSIZE_MAX || RoundUp(16, 2 * count) > SIZE_MAX / SLOT_BYTES
  }

  /** Build the immutable snapshot, or report the one cause why not; its count-mismatch error cannot occur. */
  method Freeze(index: NativeHandleIndex, allocOk: bool, lastSnapshotId: uint64)
    returns (frozen: NativeFrozenHandleIndex?, err: Option<FreezeError>)
    requires index.Valid()
    ensures err.None? <==> frozen != null
    ensures err.None? <==> && !FreezeOverflows(index.slots[..], |index.Map()|)
                           && allocOk && lastSnapshotId < UINT64_MAX
    ensures frozen != null ==>
              && fresh(frozen) && fresh(frozen.slots)
              && frozen.Valid() && frozen.hashOf == index.hashOf
              && frozen.Map() == index.Map()
              && frozen.size == |index.Map()|
              && frozen.sourceNamespaceId == index.namespaceId && frozen.sourceEpoch == index.epoch
              && frozen.snapshotId == lastSnapshotId + 1 <= UINT64_MAX
    ensures err == Some(Overflow) <==> FreezeOverflows(index.slots[..], |index.Map()|)
    ensures err == Some(FreezeNoMemory) <==> !FreezeOverflows(index.slots[..], |index.Map()|) && !allocOk
    ensures err == Some(IdentityExhausted) <==>
              !FreezeOverflows(index.slots[..], |index.Map()|) && allocOk && lastSnapshotId == UINT64_MAX
  {
    hide SlotsReachable, DistinctKeys, Bindings, IsRun, HandlesOk, KeyLengths, RoundUp;
    FullSlotsCountKeys(index.slots[..]);
    HandlesOkInRange(index.State(), index.hashOf);
    var total := MeasureKeys(index.slots, index.hashOf);
    var capacity := FrozenCapacity(index.size);
    if total.None? || capacity.None? || capacity.value > SIZE_MAX / SLOT_BYTES {
      return null, Some(Overflow);
    }
    if !allocOk {
      return null, Some(FreezeNoMemory);
    }
    var table := new Slot[capacity.value](_ => EMPTY_SLOT);
    var copied, keyBytes := CopySlots(index.slots, table, index.hashOf);
    if |keyBytes| != total.value || copied != index.size {
      assert false;  // "frozen index snapshot count mismatch"
    }
    if lastSnapshotId == UINT64_MAX {
      return null, Some(IdentityExhausted);
    }
    frozen := new NativeFrozenHandleIndex(index.hashOf, table, index.size, keyBytes, lastSnapshotId + 1,
                                          index.namespaceId, index.epoch);
    err := None;
  }

  lemma HandlesOkInRange(s: IndexState, hashOf: HashFn)
    requires Inv(s, hashOf)
    ensures HandlesInRange(Bindings(s.slots))
  {
    forall k | k in Bindings(s.slots)
      ensures 0 <= Bindings(s.slots)[k] <= INT64_MAX
    {
      var i := BoundSlot(s.slots, k);
    }
  }

  type Request = r: int | r <= INT64_MAX

  /** Everything a caller can do that may change the index, with the allocations it meets. */
  datatype Mutation =
    | PutOne(key: Key, requested: Request, tableAlloc: bool, keyAlloc: bool)
    | PutBatch(keys: seq<Key>, tableAllocs: nat -> bool, keyAllocs: nat -> bool)
    | PopOne(key: Key)
    | PopBatch(keys: seq<Key>)

  method Mutate(index: NativeHandleIndex, op: Mutation)
    requires index.Valid()
    modifies index, index.slots
    ensures index.Valid() && (index.slots == old(index.slots) || fresh(index.slots))
  {
    match op
    case PutOne(key, requested, tableAlloc, keyAlloc) =>
      var r := index.Put(key, requested, tableAlloc, keyAlloc);
    case PutBatch(keys, tableAllocs, keyAllocs) =>
      var handles, err, stop := index.PutMany(keys, tableAllocs, keyAllocs);
    case PopOne(key) =>
      var handle := index.Pop(key);
    case PopBatch(keys) =>
      var handles := index.PopMany(keys);
  }

  /** Whatever mutations follow a freeze, the frozen index answers with the map at the moment of the freeze. */
  method FreezeIsImmutable(index: NativeHandleIndex, allocOk: bool, lastSnapshotId: uint64, ops: seq<Mutation>,
                           probe: Key)
    returns (r: Option<int>)
    requires index.Valid()
    modifies index, index.slots
    ensures index.Valid()
    ensures r.None? <==> || FreezeOverflows(old(index.slots[..]), |old(index.Map())|)
                         || !allocOk || lastSnapshotId == UINT64_MAX
    ensures r.Some? ==> r.value == LookupIn(old(index.Map()), probe)
  {
    hide SlotsReachable, DistinctKeys, Bindings, IsRun, HandlesOk, KeyLengths, Inv, FreezeOverflows;
    var frozen, err := Freeze(index, allocOk, lastSnapshotId);
    if frozen == null {
      return None;
    }
    for i := 0 to |ops|
      invariant index.Valid() && (index.slots == old(index.slots) || fresh(index.slots))
      invariant frozen.slots != index.slots
      invariant frozen.Valid() && frozen.Map() == old(index.Map())
    {
      Mutate(index, ops[i]);
    }
    var handle := frozen.Lookup(probe);
    r := Some(handle);
  }

  // ---- packed lookup ----

  datatype PackedError =
    | OffsetShape | TooManyKeys | FirstNotZero | NotMonotonic | EmptySpan | PastKeys | NotAtEnd | OutputLength
  datatype PackedResult = Accepted(count: nat) | Rejected(error: PackedError)

  function OffsetAt(offsets: seq<byte>, i: nat): nat
    requires 8 * i + 8 <= |offsets|
  {
    FromLittleEndian(offsets[8 * i..8 * i + 8])
  }

  /** The offset tables that packed lookup accepts: strictly increasing from 0 to the length of the key bytes. */
  ghost predicate PackedOk(offsets: seq<byte>, keysLen: nat) {
    && |offsets| % 8 == 0
    && 8 <= |offsets|
    && |offsets| / 8 - 1 <= 65536
    && OffsetAt(offsets, 0) == 0
    && OffsetAt(offsets, |offsets| / 8 - 1) == keysLen
    && forall i :: 0 <= i < |offsets| / 8 - 1 ==> OffsetAt(offsets, i) < OffsetAt(offsets, i + 1)
  }

  lemma {:induction false} OffsetOrder(offsets: seq<byte>, keysLen: nat, i: nat, j: nat)
    requires PackedOk(offsets, keysLen)
    requires i <= j <= |offsets| / 8 - 1
    ensures OffsetAt(offsets, i) + (j - i) <= OffsetAt(offsets, j) <= keysLen
    decreases |offsets| / 8 - i
  {
    if i < j {
      OffsetOrder(offsets, keysLen, i + 1, j);
    } else if j < |offsets| / 8 - 1 {
      OffsetOrder(offsets, keysLen, j + 1, |offsets| / 8 - 1);
    }
  }

  /** The k-th span ends after it starts and within the key bytes. */
  ghost predicate GoodSpan(offsets: seq<byte>, keysLen: nat, k: nat) {
    8 * k + 16 <= |offsets| && OffsetAt(offsets, k) < OffsetAt(offsets, k + 1) <= keysLen
  }

  /** The spans start at zero and those before the k-th are good. */
  ghost predicate GoodSpans(offsets: seq<byte>, keysLen: nat, k: nat) {
    8 * k + 8 <= |offsets| && OffsetAt(offsets, 0) == 0 && forall i: nat :: i < k ==> GoodSpan(offsets, keysLen, i)
  }

  lemma GoodLast(offsets: seq<byte>, keysLen: nat, k: nat)
    requires GoodSpans(offsets, keysLen, k)
    ensures OffsetAt(offsets, k) <= keysLen
  {
    assert k == 0 || GoodSpan(offsets, keysLen, k - 1);
  }

  /** An accepted table is one of good spans that ends at the end of the key bytes. */
  lemma PackedIsGood(offsets: seq<byte>, keysLen: nat)
    requires 8 <= |offsets| && |offsets| % 8 == 0 && |offsets| / 8 - 1 <= 65536
    ensures var n := |offsets| / 8 - 1;
            PackedOk(offsets, keysLen) <==> GoodSpans(offsets, keysLen, n) && OffsetAt(offsets, n) == keysLen
  {
    hide OffsetAt;
    var n := |offsets| / 8 - 1;
    if PackedOk(offsets, keysLen) {
      forall i: nat | i < n
        ensures GoodSpan(offsets, keysLen, i)
      {
        OffsetOrder(offsets, keysLen, i + 1, n);
      }
    }
    if GoodSpans(offsets, keysLen, n) {
      forall i | 0 <= i < n
        ensures OffsetAt(offsets, i) < OffsetAt(offsets, i + 1)
      {
        assert GoodSpan(offsets, keysLen, i);
      }
    }
  }

  /** Why a table is refused: its shape, or the first span that is not good, or where the last one ends. */
  ghost predicate Explains(e: PackedError, offsets: seq<byte>, keysLen: nat) {
    var shaped := 8 <= |offsets| && |offsets| % 8 == 0;
    var n := |offsets| / 8 - 1;
    match e
    case OffsetShape => !shaped
    case TooManyKeys => shaped && n > 65536
    case FirstNotZero => shaped && n <= 65536 && OffsetAt(offsets, 0) != 0
    case NotMonotonic =>
      shaped && n <= 65536 && exists k: nat :: k < n && GoodSpans(offsets, keysLen, k) && Span(offsets, k) < 0
    case EmptySpan =>
      shaped && n <= 65536 && exists k: nat :: k < n && GoodSpans(offsets, keysLen, k) && Span(offsets, k) == 0
    case PastKeys =>
      shaped && n <= 65536 && exists k: nat :: k < n && GoodSpans(offsets, keysLen, k) && Span(offsets, k) > 0
                                               && OffsetAt(offsets, k + 1) > keysLen
    case NotAtEnd =>
      shaped && n <= 65536 && GoodSpans(offsets, keysLen, n) && OffsetAt(offsets, n) < keysLen
    case OutputLength => false
  }

  function Span(offsets: seq<byte>, k: nat): int
    requires 8 * k + 16 <= |offsets|
  {
    OffsetAt(offsets, k + 1) - OffsetAt(offsets, k)
  }

  method ValidatePackedOffsets(offsets: seq<byte>, keysLen: nat) returns (r: PackedResult)
    ensures r.Accepted? <==> PackedOk(offsets, keysLen)
    ensures r.Accepted? ==> r.count == |offsets| / 8 - 1
    ensures r.Rejected? ==> Explains(r.error, offsets, keysLen)
  {
    hide OffsetAt;
    if |offsets| < 8 || |offsets| % 8 != 0 {
      return Rejected(OffsetShape);
    }
    var n := |offsets| / 8;
    if n - 1 > PACKED_LOOKUP_MAX_KEYS {
      return Rejected(TooManyKeys);
    }
    PackedIsGood(offsets, keysLen);
    hide PackedOk;
    var previous := OffsetAt(offsets, 0);
    if previous != 0 {
      return Rejected(FirstNotZero);
    }
    var index := 1;
    while index < n
      invariant 1 <= index <= n
      invariant previous == OffsetAt(offsets, index - 1)
      invariant GoodSpans(offsets, keysLen, index - 1)
    {
      var current := OffsetAt(offsets, index);
      assert Span(offsets, index - 1) == current - previous;
      if current < previous {
        assert !GoodSpan(offsets, keysLen, index - 1);
        return Rejected(NotMonotonic);
      }
      if current == previous {
        assert !GoodSpan(offsets, keysLen, index - 1);
        return Rejected(EmptySpan);
      }
      if current > keysLen {
        assert !GoodSpan(offsets, keysLen, index - 1);
        return Rejected(PastKeys);
      }
      previous := current;
      index := index + 1;
    }
    GoodLast(offsets, keysLen, n - 1);
    if previous != keysLen {
      return Rejected(NotAtEnd);
    }
    return Accepted(n - 1);
  }

  /** (uint64_t) of a signed 64-bit handle. */
  function HandleBits(handle: int): uint64
    requires -1 <= handle <= INT64_MAX
  {
    if handle < 0 then handle + UINT64_MAX + 1 else handle
  }

  function HandleFromBits(bits: nat): int {
    if bits > INT64_MAX then bits - UINT64_MAX - 1 else bits
  }

  ghost predicate HandlesInRange(m: map<Key, int>) {
    forall k :: k in m ==> 0 <= m[k] <= INT64_MAX
  }

  /** The i-th eight output bytes decode to the answer for the i-th packed key. */
  ghost predicate Answers(output: seq<byte>, keys: seq<byte>, offsets: seq<byte>, i: nat, m: map<Key, int>) {
    && 8 * i + 8 <= |output|
    && 8 * i + 16 <= |offsets|
    && OffsetAt(offsets, i) <= OffsetAt(offsets, i + 1) <= |keys|
    && HandleFromBits(FromLittleEndian(output[8 * i..8 * i + 8]))
       == LookupIn(m, keys[OffsetAt(offsets, i)..OffsetAt(offsets, i + 1)])
  }

  /** Stores eight bytes, each the value shifted down and cut to a byte; loading them gives the value back. */
  method StoreLe64(output: array<byte>, at: nat, value: uint64)
    requires at + 8 <= output.Length
    modifies output
    ensures output[at..at + 8] == LittleEndian(8, value)
    ensures FromLittleEndian(output[at..at + 8]) == value
    ensures output[..at] == old(output[..at])
    ensures output[at + 8..] == old(output[at + 8..])
  {
    hide LittleEndian, Pow256;
    for i := 0 to 8
      invariant forall j :: 0 <= j < i ==> output[at + j] == LittleEndian(8, value)[j]
      invariant output[..at] == old(output[..at]) && output[at + 8..] == old(output[at + 8..])
    {
      LittleEndianAt(8, value, i);
      output[at + i] := value / Pow256(i) % 256;
    }
    assert output[at..at + 8] == LittleEndian(8, value);
    Pow256Values();
    LittleEndianRoundTrip(8, value);
  }

  lemma AnswersKept(was: seq<byte>, now: seq<byte>, keys: seq<byte>, offsets: seq<byte>, n: nat, m: map<Key, int>)
    requires 8 * n <= |was| == |now|
    requires was[..8 * n] == now[..8 * n]
    requires forall i :: 0 <= i < n ==> Answers(was, keys, offsets, i, m)
    ensures forall i :: 0 <= i < n ==> Answers(now, keys, offsets, i, m)
  {
    forall i | 0 <= i < n
      ensures Answers(now, keys, offsets, i, m)
    {
      assert Answers(was, keys, offsets, i, m);
      assert now[8 * i..8 * i + 8] == now[..8 * n][8 * i..8 * i + 8] == was[8 * i..8 * i + 8];
    }
  }

  lemma AnswersStored(output: seq<byte>, keys: seq<byte>, offsets: seq<byte>, i: nat, m: map<Key, int>, handle: int)
    requires 8 * i + 8 <= |output| && 8 * i + 16 <= |offsets|
    requires OffsetAt(offsets, i) <= OffsetAt(offsets, i + 1) <= |keys|
    requires handle == LookupIn(m, keys[OffsetAt(offsets, i)..OffsetAt(offsets, i + 1)])
    requires -1 <= handle <= INT64_MAX
    requires output[8 * i..8 * i + 8] == LittleEndian(8, HandleBits(handle))
    ensures Answers(output, keys, offsets, i, m)
  {
    Pow256Values();
    LittleEndianRoundTrip(8, HandleBits(handle));
  }
}
