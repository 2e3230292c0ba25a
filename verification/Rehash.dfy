/** Copying the full slots of one table into a larger empty one: the proof shared by resize and freeze. */
module Rehash {
  import opened Probing
  import opened SlotTable

  /** `dst` holds exactly the bindings found in the first i slots of `src`, and no tombstone. */
  ghost predicate Copied(src: seq<Slot>, dst: seq<Slot>, i: nat, hashOf: HashFn)
    requires DistinctKeys(src)
  {
    && i <= |src|
    && WellFormed(dst, hashOf)
    && FreeSlotsBlank(dst)
    && DistinctKeys(src[..i])
    && Bindings(dst) == Bindings(src[..i])
  }

  /** Every slot that holds no key is as calloc left it. */
  ghost predicate FreeSlotsBlank(slots: seq<Slot>) {
    forall j :: 0 <= j < |slots| && !slots[j].state.Full? ==> slots[j] == EMPTY_SLOT
  }

  lemma CopyStart(src: seq<Slot>, dst: seq<Slot>, hashOf: HashFn)
    requires DistinctKeys(src)
    requires IsPow2(|dst|)
    requires forall j :: 0 <= j < |dst| ==> dst[j] == EMPTY_SLOT
    ensures Copied(src, dst, 0, hashOf)
  {
    assert Bindings(dst) == map[];
    assert Bindings(src[..0]) == map[];
  }

  lemma PrefixSkip(src: seq<Slot>, i: nat)
    requires DistinctKeys(src)
    requires i < |src| && !src[i].state.Full?
    ensures DistinctKeys(src[..i]) && DistinctKeys(src[..i + 1])
    ensures Bindings(src[..i + 1]) == Bindings(src[..i])
  {
    var a, b := src[..i], src[..i + 1];
    forall k
      ensures SameBinding(a, b, k)
    {
      if k in Bindings(b) {
        var j := BoundSlot(b, k);
        SlotBinds(a, j, k);
      } else if k in Bindings(a) {
        var j := BoundSlot(a, k);
        SlotBinds(b, j, k);
      }
    }
  }

  lemma PrefixTake(src: seq<Slot>, i: nat)
    requires DistinctKeys(src)
    requires i < |src| && src[i].state.Full?
    ensures DistinctKeys(src[..i]) && DistinctKeys(src[..i + 1])
    ensures src[i].key !in Bindings(src[..i])
    ensures Bindings(src[..i + 1]) == Bindings(src[..i])[src[i].key := src[i].handle]
  {
    var a, b := src[..i] + [EMPTY_SLOT], src[..i + 1];
    PrefixSkip(a, i);
    assert a[..i + 1] == a && a[..i] == src[..i];
    assert src[i].key !in Bindings(src[..i]) by {
      if src[i].key in Bindings(src[..i]) {
        var j := BoundSlot(src[..i], src[i].key);
      }
    }
    assert b == a[i := src[i]];
    BindingsAfterInsert(a, i, src[i]);
  }

  lemma CopySkip(src: seq<Slot>, dst: seq<Slot>, i: nat, hashOf: HashFn)
    requires DistinctKeys(src)
    requires Copied(src, dst, i, hashOf)
    requires i < |src| && !src[i].state.Full?
    ensures Copied(src, dst, i + 1, hashOf)
  {
    hide WellFormed;
    PrefixSkip(src, i);
  }

  /** The next full slot's key is not in the copy yet, so the copy's "found" branch is dead. */
  lemma CopyKeyAbsent(src: seq<Slot>, dst: seq<Slot>, i: nat, hashOf: HashFn)
    requires DistinctKeys(src)
    requires Copied(src, dst, i, hashOf)
    requires i < |src| && src[i].state.Full?
    ensures src[i].key !in Bindings(dst)
  {
    PrefixTake(src, i);
  }

  lemma CopyPut(src: seq<Slot>, dst: seq<Slot>, i: nat, hashOf: HashFn, at: nat, s: Slot)
    requires WellFormed(src, hashOf)
    requires Copied(src, dst, i, hashOf)
    requires i < |src| && src[i].state.Full?
    requires s == src[i]
    requires CanHost(dst, hashOf, s.key, at)
    ensures Copied(src, dst[at := s], i + 1, hashOf)
  {
    hide Reachable, Bindings;
    PrefixTake(src, i);
    InsertKeepsTable(dst, hashOf, at, s);
  }

  /** A destination larger than the source's key count never fills up while it is being copied into. */
  lemma {:induction false} PrefixCount(src: seq<Slot>, i: nat)
    requires i <= |src|
    ensures |SlotsIn(src[..i], Full)| <= |SlotsIn(src, Full)|
  {
    SubsetSize(SlotsIn(src[..i], Full), SlotsIn(src, Full));
  }

  lemma CopyHasRoom(src: seq<Slot>, dst: seq<Slot>, i: nat, hashOf: HashFn)
    requires DistinctKeys(src)
    requires Copied(src, dst, i, hashOf)
    requires |SlotsIn(src, Full)| < |dst|
    ensures HasEmpty(dst)
  {
    PrefixCount(src, i);
    FullSlotsCountKeys(src[..i]);
    FullSlotsCountKeys(dst);
    assert SlotsIn(dst, Tombstone) == {};
    FullPlusTombBelowCapacity(dst);
  }

  lemma CopyDone(src: seq<Slot>, dst: seq<Slot>, hashOf: HashFn)
    requires DistinctKeys(src)
    requires Copied(src, dst, |src|, hashOf)
    ensures Bindings(dst) == Bindings(src)
  {
    assert src[..|src|] == src;
  }
}
