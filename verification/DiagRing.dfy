/**
 The native diagnostic ring as a protocol of interleaved atomic steps.

 Any number of writers publish events into 4096 slots, each slot guarded by a version counter; a reader takes
 snapshots of slots; a reset clears the ring after a handshake with the writers. Snapshot and reset both hold the
 interpreter lock and so exclude each other; writers do not hold it. One step is one atomic access, and accesses
 are sequentially consistent.
 */
module DiagRing {
  import opened Bytes

  const RING_CAPACITY: nat := 4096
  const FIELDS: nat := 8

  /** Field 0 is the sequence number; the others are timestamp, code, flags, subsystem, object and two values. */
  type Fields = seq<int>

  const BLANK: Fields := [0, 0, 0, 0, 0, 0, 0, 0]

  datatype RingSlot = RingSlot(version: nat, fields: Fields)

  function SlotOf(sequence: nat): nat
    requires sequence >= 1
  {
    (sequence - 1) % RING_CAPACITY
  }

  datatype Writer =
    | Idle
    | Checked                                            // saw the reset flag down, not yet counted
    | Entered                                            // counted, second look at the flag still to come
    | Backing                                            // the second look saw the flag up
    | Inside                                             // admitted, no sequence yet
    | Reserved(sequence: nat)
    | Loaded(sequence: nat, version: nat)                // read an even version, about to compare-and-swap
    | Storing(sequence: nat, version: nat, event: Fields, stored: nat)
    | Leaving                                            // finished with the ring, still counted

  datatype Gil =
    | Free
    | Reading(wanted: nat, before: nat, got: Fields)     // an even version was read; fields being read
    | Waiting                                            // reset: flag raised, writers draining
    | Drained                                            // reset: no writer was counted, sequence not yet cleared
    | Clearing(slot: nat, field: nat)                    // reset: slots below `slot` are blank again

  datatype Ring = Ring(
    resetting: bool,
    active: int,
    sequence: nat,
    slots: seq<RingSlot>,
    writers: seq<Writer>,
    gil: Gil,
    published: map<int, Fields>)                         // what each sequence published since the last reset

  ghost predicate Init(s: Ring) {
    && !s.resetting && s.active == 0 && s.sequence == 0
    && |s.slots| == RING_CAPACITY
    && (forall i :: 0 <= i < |s.slots| ==> s.slots[i] == RingSlot(0, BLANK))
    && (forall w :: 0 <= w < |s.writers| ==> s.writers[w].Idle?)
    && s.gil.Free? && s.published == map[]
  }

  // ---- writer steps ----

  ghost predicate IsEvent(e: Fields, sequence: nat) {
    |e| == FIELDS && e[0] == sequence
  }

  /** One atomic access by writer w. */
  ghost predicate WriterStep(s: Ring, w: nat, t: Ring)
    requires w < |s.writers|
  {
    match s.writers[w]
    case Idle => t == s.(writers := s.writers[w := if s.resetting then Idle else Checked])
    case Checked => t == s.(active := s.active + 1, writers := s.writers[w := Entered])
    case Entered => t == s.(writers := s.writers[w := if s.resetting then Backing else Inside])
    case Backing => t == s.(active := s.active - 1, writers := s.writers[w := Idle])
    case Inside =>
      if s.sequence == UINT64_MAX then t == s.(writers := s.writers[w := Leaving])
      else t == s.(sequence := s.sequence + 1, writers := s.writers[w := Reserved(s.sequence + 1)])
    case Reserved(q) =>
      && q >= 1 && |s.slots| == RING_CAPACITY
      && var v := s.slots[SlotOf(q)].version;
         t == s.(writers := s.writers[w := if v % 2 == 1 then Leaving else Loaded(q, v)])
    case Loaded(q, v) =>
      && q >= 1 && |s.slots| == RING_CAPACITY
      && var slot := s.slots[SlotOf(q)];
         if slot.version != v then t == s.(writers := s.writers[w := Leaving])
         else exists e :: IsEvent(e, q) && t == Claim(s, w, q, v, e)
    case Storing(q, v, e, k) =>
      && q >= 1 && |s.slots| == RING_CAPACITY
      && if k < FIELDS then k < |e| && k < |s.slots[SlotOf(q)].fields| && t == StoreField(s, w, q, v, e, k)
         else t == Publish(s, w, q, v, e)
    case Leaving => t == s.(active := s.active - 1, writers := s.writers[w := Idle])
  }

  ghost function Claim(s: Ring, w: nat, q: nat, v: nat, e: Fields): Ring
    requires w < |s.writers| && q >= 1 && |s.slots| == RING_CAPACITY
  {
    s.(slots := s.slots[SlotOf(q) := s.slots[SlotOf(q)].(version := v + 1)],
       writers := s.writers[w := Storing(q, v, e, 0)])
  }

  ghost function StoreField(s: Ring, w: nat, q: nat, v: nat, e: Fields, k: nat): Ring
    requires w < |s.writers| && q >= 1 && |s.slots| == RING_CAPACITY
    requires k < |e| && k < |s.slots[SlotOf(q)].fields|
  {
    var slot := s.slots[SlotOf(q)];
    s.(slots := s.slots[SlotOf(q) := slot.(fields := slot.fields[k := e[k]])],
       writers := s.writers[w := Storing(q, v, e, k + 1)])
  }

  ghost function Publish(s: Ring, w: nat, q: nat, v: nat, e: Fields): Ring
    requires w < |s.writers| && q >= 1 && |s.slots| == RING_CAPACITY
  {
    s.(slots := s.slots[SlotOf(q) := s.slots[SlotOf(q)].(version := v + 2)],
       writers := s.writers[w := Leaving],
       published := s.published[q := e])
  }

  // ---- reader and reset steps ----

  /** One atomic access by the reader taking a slot snapshot; a failed attempt goes back to Free. */
  ghost predicate ReaderStep(s: Ring, t: Ring) {
    && |s.slots| == RING_CAPACITY
    && match s.gil
       case Free =>
         exists wanted: nat :: wanted >= 1 &&
           var v := s.slots[SlotOf(wanted)].version;
           t == s.(gil := if v % 2 == 1 then Free else Reading(wanted, v, []))
       case Reading(wanted, before, got) =>
         && wanted >= 1
         && if |got| < FIELDS
            then |got| < |s.slots[SlotOf(wanted)].fields|
                 && t == s.(gil := Reading(wanted, before, got + [s.slots[SlotOf(wanted)].fields[|got|]]))
            else t == s.(gil := Free)
       case _ => false
  }

  /** The reader's last load: it hands `got` to its caller. */
  ghost predicate SnapshotSucceeds(s: Ring, wanted: nat, got: Fields) {
    && wanted >= 1 && |s.slots| == RING_CAPACITY
    && s.gil.Reading? && s.gil.wanted == wanted && s.gil.got == got && |got| == FIELDS
    && s.slots[SlotOf(wanted)].version == s.gil.before
    && got[0] == wanted
  }

  ghost predicate ResetStep(s: Ring, t: Ring) {
    match s.gil
    case Free => t == s.(resetting := true, gil := Waiting)
    case Waiting =>
      if s.active != 0 then t == s
      else t == s.(gil := Drained)
    case Drained => t == s.(sequence := 0, published := map[], gil := Clearing(0, 0))
    case Clearing(i, k) =>
      if i < |s.slots| then
        if k == 0 then t == s.(slots := s.slots[i := s.slots[i].(version := 0)], gil := Clearing(i, 1))
        else && 1 <= k <= |s.slots[i].fields|
             && t == s.(slots := s.slots[i := s.slots[i].(fields := s.slots[i].fields[k - 1 := 0])],
                        gil := if k == |s.slots[i].fields| then Clearing(i + 1, 0) else Clearing(i, k + 1))
      else t == s.(resetting := false, gil := Free)
    case _ => false
  }

  ghost predicate Next(s: Ring, t: Ring) {
    || (exists w: nat :: w < |s.writers| && WriterStep(s, w, t))
    || ReaderStep(s, t)
    || ResetStep(s, t)
  }

  // ---- invariant ----

  ghost predicate Counted(p: Writer) {
    !p.Idle? && !p.Checked?
  }

  ghost predicate InRing(p: Writer) {
    p.Inside? || p.Reserved? || p.Loaded? || p.Storing?
  }

  ghost predicate HasSequence(p: Writer) {
    p.Reserved? || p.Loaded? || p.Storing?
  }

  ghost function CountedSet(writers: seq<Writer>): set<nat> {
    set w: nat | w < |writers| && Counted(writers[w])
  }

  ghost predicate ActiveInv(s: Ring) {
    s.active == |CountedSet(s.writers)|
  }

  /** While the ring is being cleared no writer is inside it. */
  ghost predicate ResetInv(s: Ring) {
    && (s.resetting <==> s.gil.Waiting? || s.gil.Drained? || s.gil.Clearing?)
    && (s.gil.Drained? || s.gil.Clearing? ==> forall w :: 0 <= w < |s.writers| ==> !InRing(s.writers[w]))
  }

  /** Every sequence number belongs to at most one writer, or to the history of published events. */
  ghost predicate SequenceInv(s: Ring) {
    && s.sequence <= UINT64_MAX
    && (forall q :: q in s.published ==> 1 <= q <= s.sequence)
    && (forall w :: 0 <= w < |s.writers| && HasSequence(s.writers[w]) ==>
          1 <= s.writers[w].sequence <= s.sequence && s.writers[w].sequence !in s.published)
    && (forall w, x ::
          (0 <= w < |s.writers| && 0 <= x < |s.writers| && HasSequence(s.writers[w]) && HasSequence(s.writers[x])
           && s.writers[w].sequence == s.writers[x].sequence) ==> w == x)
  }

  ghost predicate OwnerOk(s: Ring, w: nat)
    requires |s.slots| == RING_CAPACITY
    requires w < |s.writers|
  {
    match s.writers[w]
    case Loaded(q, v) => v % 2 == 0
    case Storing(q, v, e, k) =>
      && q >= 1
      && v % 2 == 0 && IsEvent(e, q) && k <= FIELDS
      && s.slots[SlotOf(q)].version == v + 1
      && |s.slots[SlotOf(q)].fields| == FIELDS
      && s.slots[SlotOf(q)].fields[..k] == e[..k]
    case _ => true
  }

  /** A writer that claimed a slot owns it alone. */
  ghost predicate OwnerInv(s: Ring)
    requires |s.slots| == RING_CAPACITY
  {
    && (forall w :: 0 <= w < |s.writers| ==> OwnerOk(s, w))
    && (forall w, x ::
          (0 <= w < |s.writers| && 0 <= x < |s.writers| && s.writers[w].Storing? && s.writers[x].Storing?
           && SameSlot(s.writers[w], s.writers[x])) ==> w == x)
  }

  ghost predicate SameSlot(p: Writer, r: Writer)
    requires p.Storing? && r.Storing?
  {
    p.sequence >= 1 && r.sequence >= 1 && SlotOf(p.sequence) == SlotOf(r.sequence)
  }

  ghost predicate OwnedBy(s: Ring, i: nat, w: nat) {
    w < |s.writers| && s.writers[w].Storing? && s.writers[w].sequence >= 1 && SlotOf(s.writers[w].sequence) == i
  }

  /** A slot at rest holds exactly what one sequence published, or is blank. */
  ghost predicate Settled(slot: RingSlot, i: nat, published: map<int, Fields>) {
    && |slot.fields| == FIELDS
    && if slot.version == 0 then slot.fields == BLANK
       else && slot.fields[0] >= 1
            && slot.fields[0] in published
            && published[slot.fields[0]] == slot.fields
            && SlotOf(slot.fields[0]) == i
  }

  ghost predicate SlotOk(s: Ring, i: nat)
    requires i < |s.slots|
  {
    && |s.slots[i].fields| == FIELDS
    && (s.slots[i].version % 2 == 0 ==> Settled(s.slots[i], i, s.published))
    && (s.slots[i].version % 2 == 1 ==> exists w: nat :: OwnedBy(s, i, w))
  }

  ghost predicate SlotInv(s: Ring) {
    && |s.slots| == RING_CAPACITY
    && (forall i :: 0 <= i < |s.slots| ==> |s.slots[i].fields| == FIELDS)
    && (!s.gil.Clearing? ==> forall i :: 0 <= i < |s.slots| ==> SlotOk(s, i))
    && (s.gil.Clearing? ==> ClearedSoFar(s.slots, s.gil.slot, s.gil.field) && s.published == map[])
  }

  ghost predicate ClearedSoFar(slots: seq<RingSlot>, i: nat, k: nat) {
    && i <= |slots|
    && k <= FIELDS
    && (i == |slots| ==> k == 0)
    && (forall j :: 0 <= j < i ==> slots[j] == RingSlot(0, BLANK))
    && (i < |slots| && k >= 1 ==> slots[i].version == 0)
    && (i < |slots| && k >= 1 ==> forall f :: 0 <= f < k - 1 && f < |slots[i].fields| ==> slots[i].fields[f] == 0)
  }

  /** What the reader has seen is still what the slot holds, unless the version has moved on. */
  ghost predicate ReaderInv(s: Ring)
    requires |s.slots| == RING_CAPACITY
  {
    s.gil.Reading? ==>
      && s.gil.wanted >= 1
      && s.gil.before % 2 == 0
      && |s.gil.got| <= FIELDS
      && var slot := s.slots[SlotOf(s.gil.wanted)];
         && |slot.fields| == FIELDS
         && s.gil.before <= slot.version
         && (slot.version == s.gil.before ==> s.gil.got == slot.fields[..|s.gil.got|])
  }

  ghost predicate Inv(s: Ring) {
    && SlotInv(s)
    && ActiveInv(s)
    && ResetInv(s)
    && SequenceInv(s)
    && OwnerInv(s)
    && ReaderInv(s)
  }

  lemma InitInv(s: Ring)
    requires Init(s)
    ensures Inv(s)
  {
    assert CountedSet(s.writers) == {};
  }

  // ---- steps that leave the slots alone ----

  lemma CountedUpdate(writers: seq<Writer>, w: nat, p: Writer)
    requires w < |writers|
    ensures |CountedSet(writers[w := p])|
            == |CountedSet(writers)| + (if Counted(p) then 1 else 0) - (if Counted(writers[w]) then 1 else 0)
  {
    hide Counted;
    var a, b := CountedSet(writers), CountedSet(writers[w := p]);
    var c := a - {w};
    assert c == b - {w};
    assert a == if Counted(writers[w]) then c + {w} else c;
    assert b == if Counted(p) then c + {w} else c;
  }

  /** A writer step that neither takes nor gives up a slot keeps the slot, owner and reader invariants. */
  lemma QuietStep(s: Ring, w: nat, p: Writer, t: Ring)
    requires Inv(s)
    requires w < |s.writers| && !s.writers[w].Storing? && !p.Storing?
    requires p.Loaded? ==> p.version % 2 == 0
    requires t == s.(active := t.active, sequence := t.sequence, writers := s.writers[w := p])
    requires ActiveInv(t) && ResetInv(t) && SequenceInv(t)
    ensures Inv(t)
  {
    hide ActiveInv, ResetInv, SequenceInv;
    forall i | 0 <= i < |t.slots| && SlotOk(s, i)
      ensures SlotOk(t, i)
    {
      if s.slots[i].version % 2 == 1 {
        var x: nat :| OwnedBy(s, i, x);
        assert OwnedBy(t, i, x);
      }
    }
    forall x | 0 <= x < |t.writers|
      ensures OwnerOk(t, x)
    {
      assert x != w ==> OwnerOk(s, x);
    }
  }

  lemma AdmissionStep(s: Ring, w: nat, t: Ring)
    requires Inv(s)
    requires w < |s.writers| && WriterStep(s, w, t)
    requires var p := s.writers[w]; p.Idle? || p.Checked? || p.Entered? || p.Backing? || p.Leaving?
    ensures Inv(t)
  {
    hide SlotInv, OwnerInv, ReaderInv;
    CountedUpdate(s.writers, w, t.writers[w]);
    QuietStep(s, w, t.writers[w], t);
  }

  lemma ReserveStep(s: Ring, w: nat, t: Ring)
    requires Inv(s)
    requires w < |s.writers| && s.writers[w].Inside? && WriterStep(s, w, t)
    ensures Inv(t)
  {
    hide SlotInv, OwnerInv, ReaderInv;
    CountedUpdate(s.writers, w, t.writers[w]);
    QuietStep(s, w, t.writers[w], t);
  }

  lemma LoadVersionStep(s: Ring, w: nat, t: Ring)
    requires Inv(s)
    requires w < |s.writers| && WriterStep(s, w, t)
    requires s.writers[w].Reserved? || (s.writers[w].Loaded? && t.writers[w].Leaving?)
    requires t.slots == s.slots && t.published == s.published
    ensures Inv(t)
  {
    hide SlotInv, OwnerInv, ReaderInv;
    CountedUpdate(s.writers, w, t.writers[w]);
    QuietStep(s, w, t.writers[w], t);
  }

  // ---- steps on a slot ----

  /** Steps on one slot leave every other owner, slot and reader alone. */
  lemma OtherOwners(s: Ring, t: Ring, w: nat, i: nat)
    requires |s.slots| == |t.slots| == RING_CAPACITY
    requires OwnerInv(s)
    requires |s.writers| == |t.writers| && w < |s.writers| && i < RING_CAPACITY
    requires forall x :: 0 <= x < |s.writers| && x != w ==> t.writers[x] == s.writers[x] && !OwnedBy(s, i, x)
    requires forall j :: 0 <= j < |s.slots| && j != i ==> t.slots[j] == s.slots[j]
    requires OwnerOk(t, w)
    requires OwnedBy(t, i, w) || !t.writers[w].Storing?
    ensures OwnerInv(t)
  {
    forall x | 0 <= x < |t.writers|
      ensures OwnerOk(t, x)
    {
      if x != w {
        assert OwnerOk(s, x);
      }
    }
  }

  lemma OtherSlots(s: Ring, t: Ring, w: nat, i: nat, j: nat)
    requires |s.slots| == |t.slots| && i < |s.slots| && j < |s.slots| && j != i
    requires |s.writers| == |t.writers| && w < |s.writers|
    requires forall x :: 0 <= x < |s.writers| && x != w ==> t.writers[x] == s.writers[x]
    requires !OwnedBy(s, j, w)
    requires t.slots[j] == s.slots[j]
    requires forall q :: q in s.published ==> q in t.published && t.published[q] == s.published[q]
    requires SlotOk(s, j)
    ensures SlotOk(t, j)
  {
    if s.slots[j].version % 2 == 1 {
      var x: nat :| OwnedBy(s, j, x);
      assert OwnedBy(t, j, x);
    }
  }

  /** A slot with an even version has no owner. */
  lemma EvenUnowned(s: Ring, i: nat, x: nat)
    requires |s.slots| == RING_CAPACITY && i < RING_CAPACITY
    requires OwnerInv(s)
    requires s.slots[i].version % 2 == 0
    ensures !OwnedBy(s, i, x)
  {
    if x < |s.writers| {
      assert OwnerOk(s, x);
    }
  }

  lemma ClaimStep(s: Ring, w: nat, q: nat, v: nat, e: Fields)
    requires Inv(s)
    requires w < |s.writers| && s.writers[w] == Loaded(q, v) && q >= 1
    requires s.slots[SlotOf(q)].version == v && IsEvent(e, q)
    ensures Inv(Claim(s, w, q, v, e))
  {
    var t, i := Claim(s, w, q, v, e), SlotOf(q);
    assert OwnerOk(s, w);
    assert !s.gil.Clearing?;
    CountedUpdate(s.writers, w, t.writers[w]);
    forall x: nat | x < |s.writers|
      ensures !OwnedBy(s, i, x)
    {
      EvenUnowned(s, i, x);
    }
    assert OwnedBy(t, i, w);
    OtherOwners(s, t, w, i);
    forall j | 0 <= j < |t.slots|
      ensures SlotOk(t, j)
    {
      assert SlotOk(s, j);
      if j != i {
        OtherSlots(s, t, w, i, j);
      }
    }
  }

  lemma StoreFieldStep(s: Ring, w: nat, q: nat, v: nat, e: Fields, k: nat)
    requires Inv(s)
    requires w < |s.writers| && s.writers[w] == Storing(q, v, e, k) && q >= 1 && k < FIELDS
    requires k < |e| && k < |s.slots[SlotOf(q)].fields|
    ensures Inv(StoreField(s, w, q, v, e, k))
  {
    var t, i := StoreField(s, w, q, v, e, k), SlotOf(q);
    assert OwnerOk(s, w);
    assert !s.gil.Clearing?;
    CountedUpdate(s.writers, w, t.writers[w]);
    assert OwnedBy(s, i, w) && OwnedBy(t, i, w);
    assert t.slots[i].fields[..k + 1] == e[..k + 1] by {
      assert t.slots[i].fields[..k] == s.slots[i].fields[..k] == e[..k];
    }
    OtherOwners(s, t, w, i);
    forall j | 0 <= j < |t.slots|
      ensures SlotOk(t, j)
    {
      assert SlotOk(s, j);
      if j != i {
        OtherSlots(s, t, w, i, j);
      }
    }
  }

  lemma PublishStep(s: Ring, w: nat, q: nat, v: nat, e: Fields)
    requires Inv(s)
    requires w < |s.writers| && s.writers[w] == Storing(q, v, e, FIELDS) && q >= 1
    ensures Inv(Publish(s, w, q, v, e))
  {
    var t, i := Publish(s, w, q, v, e), SlotOf(q);
    assert OwnerOk(s, w);
    assert !s.gil.Clearing?;
    CountedUpdate(s.writers, w, t.writers[w]);
    assert OwnedBy(s, i, w);
    assert s.slots[i].fields == e by {
      assert s.slots[i].fields[..FIELDS] == s.slots[i].fields && e[..FIELDS] == e;
    }
    OtherOwners(s, t, w, i);
    forall j | 0 <= j < |t.slots|
      ensures SlotOk(t, j)
    {
      assert SlotOk(s, j);
      if j != i {
        OtherSlots(s, t, w, i, j);
      }
    }
  }

  lemma WriterKeepsInv(s: Ring, w: nat, t: Ring)
    requires Inv(s)
    requires w < |s.writers| && WriterStep(s, w, t)
    ensures Inv(t)
  {
    match s.writers[w]
    case Idle => AdmissionStep(s, w, t);
    case Checked => AdmissionStep(s, w, t);
    case Entered => AdmissionStep(s, w, t);
    case Backing => AdmissionStep(s, w, t);
    case Leaving => AdmissionStep(s, w, t);
    case Inside => ReserveStep(s, w, t);
    case Reserved(q) => LoadVersionStep(s, w, t);
    case Loaded(q, v) =>
      if s.slots[SlotOf(q)].version != v {
        LoadVersionStep(s, w, t);
      } else {
        var e :| IsEvent(e, q) && t == Claim(s, w, q, v, e);
        ClaimStep(s, w, q, v, e);
      }
    case Storing(q, v, e, k) =>
      if k < FIELDS {
        StoreFieldStep(s, w, q, v, e, k);
      } else {
        assert OwnerOk(s, w);
        PublishStep(s, w, q, v, e);
      }
  }

  lemma ReaderKeepsInv(s: Ring, t: Ring)
    requires Inv(s)
    requires ReaderStep(s, t)
    ensures Inv(t)
  {
    forall i | 0 <= i < |t.slots|
      ensures SlotOk(t, i)
    {
      assert SlotOk(s, i);
      if s.slots[i].version % 2 == 1 {
        var x: nat :| OwnedBy(s, i, x);
        assert OwnedBy(t, i, x);
      }
    }
    forall x | 0 <= x < |t.writers|
      ensures OwnerOk(t, x)
    {
      assert OwnerOk(s, x);
    }
  }

  lemma NoWriterCounted(s: Ring, w: nat)
    requires ActiveInv(s) && s.active == 0
    requires w < |s.writers|
    ensures !InRing(s.writers[w])
  {
    assert w !in CountedSet(s.writers);
  }

  lemma ResetKeepsInv(s: Ring, t: Ring)
    requires Inv(s)
    requires ResetStep(s, t)
    ensures Inv(t)
  {
    forall x | 0 <= x < |t.writers|
      ensures OwnerOk(t, x)
    {
      assert OwnerOk(s, x);
      if s.gil.Waiting? && s.active == 0 {
        NoWriterCounted(s, x);
      }
    }
    forall i | 0 <= i < |t.slots| && !t.gil.Clearing?
      ensures SlotOk(t, i)
    {
      if !s.gil.Clearing? {
        assert SlotOk(s, i);
        if s.slots[i].version % 2 == 1 {
          var x: nat :| OwnedBy(s, i, x);
          assert OwnedBy(t, i, x);
        }
      }
    }
    if s.gil.Waiting? && s.active == 0 {
      forall x: nat | x < |s.writers|
        ensures !InRing(s.writers[x])
      {
        NoWriterCounted(s, x);
      }
    }
  }

  lemma NextKeepsInv(s: Ring, t: Ring)
    requires Inv(s)
    requires Next(s, t)
    ensures Inv(t)
  {
    if w: nat :| w < |s.writers| && WriterStep(s, w, t) {
      WriterKeepsInv(s, w, t);
    } else if ReaderStep(s, t) {
      ReaderKeepsInv(s, t);
    } else {
      ResetKeepsInv(s, t);
    }
  }

  // ---- whole runs ----

  ghost predicate StepAt(r: seq<Ring>, j: int) {
    0 <= j && j + 1 < |r| && Next(r[j], r[j + 1])
  }

  ghost predicate IsRun(r: seq<Ring>) {
    |r| > 0 && Init(r[0]) && forall j :: 0 <= j < |r| - 1 ==> StepAt(r, j)
  }

  lemma {:induction false} RunInv(r: seq<Ring>, j: nat)
    requires IsRun(r) && j < |r|
    ensures Inv(r[j])
  {
    hide Inv, Init, Next;
    if j == 0 {
      InitInv(r[0]);
    } else {
      RunInv(r, j - 1);
      assert StepAt(r, j - 1);
      NextKeepsInv(r[j - 1], r[j]);
    }
  }

  /** In every reachable state no two writers own the same slot. */
  lemma OneOwnerPerSlot(r: seq<Ring>, j: nat, w: nat, x: nat)
    requires IsRun(r) && j < |r|
    requires w < |r[j].writers| && x < |r[j].writers|
    requires r[j].writers[w].Storing? && r[j].writers[x].Storing? && w != x
    ensures r[j].writers[w].sequence >= 1 && r[j].writers[x].sequence >= 1
    ensures SlotOf(r[j].writers[w].sequence) != SlotOf(r[j].writers[x].sequence)
    ensures (r[j].writers[w].sequence - r[j].writers[x].sequence) % 4096 != 0
  {
    RunInv(r, j);
    assert OwnerOk(r[j], w) && OwnerOk(r[j], x);
  }

  /** In every reachable state a ring being cleared has no writer in it. */
  lemma ClearingExcludesWriters(r: seq<Ring>, j: nat, w: nat)
    requires IsRun(r) && j < |r|
    requires w < |r[j].writers| && (r[j].gil.Drained? || r[j].gil.Clearing?)
    ensures !InRing(r[j].writers[w])
  {
    RunInv(r, j);
  }

  /** A writer about to make the release store that publishes `event` under `sequence`. */
  ghost predicate AboutToPublish(s: Ring, w: nat, sequence: int, event: Fields) {
    && w < |s.writers|
    && s.writers[w].Storing?
    && s.writers[w].sequence == sequence
    && s.writers[w].event == event
    && s.writers[w].stored == FIELDS
  }

  lemma PublishedOnce(s: Ring, t: Ring, q: int)
    requires Inv(s) && Next(s, t)
    requires q in t.published
    ensures (q in s.published && s.published[q] == t.published[q])
            || exists w: nat :: AboutToPublish(s, w, q, t.published[q])
  {
    if w: nat :| w < |s.writers| && WriterStep(s, w, t) {
      assert OwnerOk(s, w);
      if s.writers[w].Storing? && s.writers[w].stored == FIELDS {
        assert q != s.writers[w].sequence || AboutToPublish(s, w, q, t.published[q]);
      }
    }
  }

  lemma {:induction false} PublishedByAWriter(r: seq<Ring>, j: nat, q: int)
    requires IsRun(r) && j < |r|
    requires q in r[j].published
    ensures exists a: nat, w: nat :: a < j && AboutToPublish(r[a], w, q, r[j].published[q])
  {
    hide Inv, Next;
    if j == 0 {
    } else {
      RunInv(r, j - 1);
      assert StepAt(r, j - 1);
      PublishedOnce(r[j - 1], r[j], q);
      if q in r[j - 1].published && r[j - 1].published[q] == r[j].published[q] {
        PublishedByAWriter(r, j - 1, q);
      }
    }
  }

  /** No tearing: a snapshot that succeeds is, field for field, what one writer published for that sequence. */
  lemma SnapshotIsOneWritersEvent(r: seq<Ring>, j: nat, wanted: nat, got: Fields)
    requires IsRun(r) && j < |r|
    requires SnapshotSucceeds(r[j], wanted, got)
    ensures wanted in r[j].published && r[j].published[wanted] == got
    ensures exists a: nat, w: nat :: a < j && AboutToPublish(r[a], w, wanted, got)
  {
    RunInv(r, j);
    assert SlotOk(r[j], SlotOf(wanted));
    assert r[j].slots[SlotOf(wanted)].fields == got;
    PublishedByAWriter(r, j, wanted);
  }

  // ---- the version counter never wraps ----

  ghost function PublishedAt(published: map<int, Fields>, i: nat): set<int> {
    set q | q in published && q >= 1 && SlotOf(q) == i
  }

  ghost predicate VersionInv(s: Ring) {
    !s.gil.Clearing? ==>
      forall i :: 0 <= i < |s.slots| ==>
                    s.slots[i].version == 2 * |PublishedAt(s.published, i)| + s.slots[i].version % 2
  }

  lemma PublishedAtGrows(published: map<int, Fields>, q: nat, e: Fields, i: nat)
    requires q >= 1 && q !in published
    ensures |PublishedAt(published[q := e], i)| == |PublishedAt(published, i)| + (if SlotOf(q) == i then 1 else 0)
  {
    var a, b := PublishedAt(published, i), PublishedAt(published[q := e], i);
    assert b == if SlotOf(q) == i then a + {q} else a;
  }

  lemma PublishKeepsVersions(s: Ring, w: nat, q: nat, v: nat, e: Fields)
    requires Inv(s) && VersionInv(s)
    requires w < |s.writers| && s.writers[w] == Storing(q, v, e, FIELDS) && q >= 1
    ensures VersionInv(Publish(s, w, q, v, e))
  {
    var t := Publish(s, w, q, v, e);
    assert OwnerOk(s, w);
    assert !s.gil.Clearing?;
    forall i | 0 <= i < |t.slots|
      ensures t.slots[i].version == 2 * |PublishedAt(t.published, i)| + t.slots[i].version % 2
    {
      PublishedAtGrows(s.published, q, e, i);
    }
  }

  lemma WriterKeepsVersions(s: Ring, w: nat, t: Ring)
    requires Inv(s) && VersionInv(s)
    requires w < |s.writers| && WriterStep(s, w, t)
    ensures VersionInv(t)
  {
    assert OwnerOk(s, w);
    match s.writers[w] {
      case Storing(q, v, e, k) =>
        if k == FIELDS {
          PublishKeepsVersions(s, w, q, v, e);
        }
      case _ =>
    }
  }

  lemma NextKeepsVersions(s: Ring, t: Ring)
    requires Inv(s) && VersionInv(s)
    requires Next(s, t)
    ensures VersionInv(t)
  {
    if w: nat :| w < |s.writers| && WriterStep(s, w, t) {
      WriterKeepsVersions(s, w, t);
    } else if ResetStep(s, t) && s.gil.Clearing? && !t.gil.Clearing? {
      forall i | 0 <= i < |t.slots|
        ensures PublishedAt(t.published, i) == {}
      {
      }
    }
  }

  /** At most one sequence in every block of 4096 falls on a given slot. */
  lemma {:induction false} OnePerLap(p: set<int>, i: nat, laps: nat)
    requires i < RING_CAPACITY
    requires forall q :: q in p ==> 1 <= q <= RING_CAPACITY * laps && SlotOf(q) == i
    ensures |p| <= laps
    decreases laps
  {
    if laps == 0 {
      assert forall q :: q !in p;
      assert p == {};
    } else {
      var last := RING_CAPACITY * (laps - 1) + i + 1;
      OnePerLap(p - {last}, i, laps - 1);
      assert |p| <= |p - {last}| + 1;
    }
  }

  /** Each slot's version stays far below the 64-bit range, so its parity and growth are never lost to wrap-around. */
  lemma VersionNeverWraps(r: seq<Ring>, j: nat, i: nat)
    requires IsRun(r) && j < |r| && i < |r[j].slots|
    requires !r[j].gil.Clearing?
    ensures r[j].slots[i].version <= 2 * (UINT64_MAX / RING_CAPACITY + 1) + 1 < UINT64_MAX
  {
    RunInv(r, j);
    RunVersions(r, j);
    OnePerLap(PublishedAt(r[j].published, i), i, UINT64_MAX / RING_CAPACITY + 1);
  }

  lemma {:induction false} RunVersions(r: seq<Ring>, j: nat)
    requires IsRun(r) && j < |r|
    ensures VersionInv(r[j])
  {
    hide Inv, Next;
    if j == 0 {
      forall i | 0 <= i < |r[0].slots|
        ensures PublishedAt(r[0].published, i) == {}
      {
      }
    } else {
      RunInv(r, j - 1);
      RunVersions(r, j - 1);
      assert StepAt(r, j - 1);
      NextKeepsVersions(r[j - 1], r[j]);
    }
  }

  // ---- what the ring gets done ----

  ghost function Last(r: seq<Ring>): Ring
    requires r != []
  {
    r[|r| - 1]
  }

  lemma Extend(r: seq<Ring>, t: Ring)
    requires IsRun(r) && Next(Last(r), t)
    ensures IsRun(r + [t]) && Last(r + [t]) == t && r <= r + [t]
  {
    hide Next, Init;
    var more := r + [t];
    forall j | 0 <= j < |more| - 1
      ensures StepAt(more, j)
    {
      assert j == |r| - 1 || StepAt(r, j);
    }
  }

  lemma WriterMoves(r: seq<Ring>, w: nat, t: Ring) returns (more: seq<Ring>)
    requires IsRun(r) && w < |Last(r).writers| && WriterStep(Last(r), w, t)
    ensures IsRun(more) && Last(more) == t && r <= more
  {
    hide WriterStep, ReaderStep, ResetStep, StepAt, Init;
    Extend(r, t);
    more := r + [t];
  }

  /** The ring is at rest: nobody is writing, reading or resetting. */
  ghost predicate AtRest(s: Ring) {
    s.gil.Free? && forall w :: 0 <= w < |s.writers| ==> s.writers[w].Idle?
  }

  lemma RestIsEven(s: Ring, i: nat)
    requires Inv(s) && AtRest(s) && i < RING_CAPACITY
    ensures !s.resetting && |s.slots| == RING_CAPACITY && s.slots[i].version % 2 == 0
  {
    assert SlotOk(s, i);
  }

  /** From rest a writer is admitted and gets the next sequence number. */
  lemma Admit(r: seq<Ring>, w: nat) returns (more: seq<Ring>)
    requires IsRun(r) && AtRest(Last(r)) && w < |Last(r).writers| && Last(r).sequence < UINT64_MAX
    ensures IsRun(more) && r <= more
    ensures var s := Last(r);
            Last(more) == s.(active := s.active + 1, sequence := s.sequence + 1,
                             writers := s.writers[w := Reserved(s.sequence + 1)])
  {
    hide StepAt, Init, Inv;
    var s := Last(r);
    RunInv(r, |r| - 1);
    RestIsEven(s, 0);
    more := WriterMoves(r, w, s.(writers := s.writers[w := Checked]));
    more := WriterMoves(more, w, s.(active := s.active + 1, writers := s.writers[w := Entered]));
    more := WriterMoves(more, w, s.(active := s.active + 1, writers := s.writers[w := Inside]));
    var t := s.(active := s.active + 1, sequence := s.sequence + 1,
                writers := s.writers[w := Reserved(s.sequence + 1)]);
    assert t.writers == Last(more).writers[w := Reserved(s.sequence + 1)];
    more := WriterMoves(more, w, t);
  }

  /** A writer that owns its slot stores the rest of its event, whatever it has stored already. */
  lemma {:induction false} StoreAll(r: seq<Ring>, w: nat, q: nat, v: nat, e: Fields, k: nat) returns (more: seq<Ring>)
    requires IsRun(r) && w < |Last(r).writers| && Last(r).writers[w] == Storing(q, v, e, k) && k <= FIELDS
    ensures IsRun(more) && r <= more
    ensures Last(more) == Last(r).(slots := Last(more).slots, writers := Last(r).writers[w := Storing(q, v, e, FIELDS)])
    decreases FIELDS - k
  {
    hide StepAt, Init;
    var s := Last(r);
    if k == FIELDS {
      more := r;
      assert s.writers[w := s.writers[w]] == s.writers;
    } else {
      RunInv(r, |r| - 1);
      assert OwnerOk(s, w);
      more := WriterMoves(r, w, StoreField(s, w, q, v, e, k));
      more := StoreAll(more, w, q, v, e, k + 1);
    }
  }

  /** A writer that finds the version it read even and unchanged claims the slot and publishes any event it brings. */
  lemma ClaimAndPublish(r: seq<Ring>, w: nat, q: nat, v: nat, e: Fields) returns (more: seq<Ring>)
    requires IsRun(r) && w < |Last(r).writers| && Last(r).writers[w] == Loaded(q, v)
    requires q >= 1 && |Last(r).slots| == RING_CAPACITY && Last(r).slots[SlotOf(q)].version == v
    requires IsEvent(e, q)
    ensures IsRun(more) && r <= more
    ensures Last(more) == Last(r).(slots := Last(more).slots, writers := Last(r).writers[w := Leaving],
                                   published := Last(r).published[q := e])
    ensures |Last(more).slots| == RING_CAPACITY && Last(more).slots[SlotOf(q)] == RingSlot(v + 2, e)
  {
    hide StepAt, Init;
    more := WriterMoves(r, w, Claim(Last(r), w, q, v, e));
    more := StoreAll(more, w, q, v, e, 0);
    var s := Last(more);
    RunInv(more, |more| - 1);
    assert OwnerOk(s, w);
    assert s.slots[SlotOf(q)].fields == e by {
      assert s.slots[SlotOf(q)].fields[..FIELDS] == s.slots[SlotOf(q)].fields && e[..FIELDS] == e;
    }
    more := WriterMoves(more, w, Publish(s, w, q, v, e));
  }

  /** The reader loads the rest of the fields of a slot nobody touches. */
  lemma {:induction false} ReadAll(r: seq<Ring>, q: nat, v: nat, k: nat) returns (more: seq<Ring>)
    requires IsRun(r) && q >= 1 && k <= FIELDS
    requires |Last(r).slots| == RING_CAPACITY && |Last(r).slots[SlotOf(q)].fields| == FIELDS
    requires Last(r).gil == Reading(q, v, Last(r).slots[SlotOf(q)].fields[..k])
    ensures IsRun(more) && r <= more
    ensures Last(more) == Last(r).(gil := Reading(q, v, Last(r).slots[SlotOf(q)].fields))
    decreases FIELDS - k
  {
    hide StepAt, Init;
    var s := Last(r);
    var fields := s.slots[SlotOf(q)].fields;
    if k == FIELDS {
      assert fields[..k] == fields;
      more := r;
    } else {
      assert fields[..k] + [fields[k]] == fields[..k + 1];
      var t := s.(gil := Reading(q, v, fields[..k + 1]));
      assert ReaderStep(s, t);
      Extend(r, t);
      more := ReadAll(r + [t], q, v, k + 1);
    }
  }

  lemma Snapshot(r: seq<Ring>, q: nat) returns (more: seq<Ring>)
    requires IsRun(r) && q >= 1 && Last(r).gil.Free?
    requires |Last(r).slots| == RING_CAPACITY && |Last(r).slots[SlotOf(q)].fields| == FIELDS
    requires Last(r).slots[SlotOf(q)].version % 2 == 0 && Last(r).slots[SlotOf(q)].fields[0] == q
    ensures IsRun(more) && r <= more && SnapshotSucceeds(Last(more), q, Last(r).slots[SlotOf(q)].fields)
    ensures Last(more) == Last(r).(gil := Last(more).gil)
  {
    hide StepAt, Init;
    var s := Last(r);
    var slot := s.slots[SlotOf(q)];
    var t := s.(gil := Reading(q, slot.version, []));
    assert slot.fields[..0] == [];
    assert ReaderStep(s, t);
    Extend(r, t);
    more := ReadAll(r + [t], q, slot.version, 0);
  }

  /** From every reachable state at rest, whatever event a writer brings can be recorded and read back, and the ring
      comes to rest again. */
  lemma EventGetsThrough(r: seq<Ring>, w: nat, e: Fields) returns (seen: seq<Ring>, rest: seq<Ring>)
    requires IsRun(r) && AtRest(Last(r)) && w < |Last(r).writers| && Last(r).sequence < UINT64_MAX
    requires |e| == FIELDS && e[0] == Last(r).sequence + 1
    ensures IsRun(seen) && r <= seen && SnapshotSucceeds(Last(seen), Last(r).sequence + 1, e)
    ensures IsRun(rest) && seen <= rest && AtRest(Last(rest))
    ensures Last(rest).sequence == Last(r).sequence + 1
    ensures Last(rest).published == Last(r).published[Last(r).sequence + 1 := e]
  {
    hide StepAt, Init, Inv;
    var q := Last(r).sequence + 1;
    RunInv(r, |r| - 1);
    RestIsEven(Last(r), SlotOf(q));
    var v := Last(r).slots[SlotOf(q)].version;
    seen := Admit(r, w);
    var s := Last(seen);
    seen := WriterMoves(seen, w, s.(writers := s.writers[w := Loaded(q, v)]));
    seen := ClaimAndPublish(seen, w, q, v, e);
    s := Last(seen);
    seen := WriterMoves(seen, w, s.(active := s.active - 1, writers := s.writers[w := Idle]));
    seen := Snapshot(seen, q);
    var t := Last(seen).(gil := Free);
    assert ReaderStep(Last(seen), t);
    Extend(seen, t);
    rest := seen + [t];
  }

  /** A writer gives its sequence up only where another writer is storing into the same slot, or has claimed it since
      the version was read. */
  lemma GivesUpOnlyToAnother(r: seq<Ring>, j: nat, w: nat)
    requires IsRun(r) && j + 1 < |r| && w < |r[j].writers|
    requires HasSequence(r[j].writers[w]) && WriterStep(r[j], w, r[j + 1])
    requires r[j].writers[w].sequence !in r[j + 1].published && !HasSequence(r[j + 1].writers[w])
    ensures var q := r[j].writers[w].sequence;
            && q >= 1 && |r[j].slots| == RING_CAPACITY
            && if r[j].writers[w].Reserved? then exists x: nat :: x != w && OwnedBy(r[j], SlotOf(q), x)
               else r[j].writers[w].Loaded? && r[j].slots[SlotOf(q)].version != r[j].writers[w].version
  {
    RunInv(r, j);
    var s, q := r[j], r[j].writers[w].sequence;
    assert SlotOk(s, SlotOf(q));
    assert OwnerOk(s, w);
    if s.writers[w].Reserved? {
      var x: nat :| OwnedBy(s, SlotOf(q), x);
    }
  }

  lemma ResetMoves(r: seq<Ring>, t: Ring) returns (more: seq<Ring>)
    requires IsRun(r) && ResetStep(Last(r), t)
    ensures IsRun(more) && Last(more) == t && r <= more
  {
    hide WriterStep, ReaderStep, ResetStep, StepAt, Init;
    Extend(r, t);
    more := r + [t];
  }

  // ---- a reset waits only so long ----

  /** How many more steps a writer can take once the reset flag is up. */
  ghost function StepsLeft(p: Writer): nat {
    match p
    case Idle => 0
    case Checked => 3
    case Entered => 2
    case Backing => 1
    case Inside => 13
    case Reserved(_) => 12
    case Loaded(_, _) => 11
    case Storing(_, _, _, k) => if k <= FIELDS then 10 - k else 2
    case Leaving => 1
  }

  ghost function AllStepsLeft(writers: seq<Writer>): nat {
    if writers == [] then 0 else AllStepsLeft(writers[..|writers| - 1]) + StepsLeft(writers[|writers| - 1])
  }

  lemma {:induction false} StepsLeftUpdate(writers: seq<Writer>, w: nat, p: Writer)
    requires w < |writers|
    ensures AllStepsLeft(writers[w := p]) == AllStepsLeft(writers) + StepsLeft(p) - StepsLeft(writers[w])
  {
    hide StepsLeft;
    var n := |writers| - 1;
    if w == n {
      assert writers[w := p][..n] == writers[..n];
    } else {
      StepsLeftUpdate(writers[..n], w, p);
      assert writers[w := p][..n] == writers[..n][w := p];
    }
  }

  lemma {:induction false} NoStepsLeft(writers: seq<Writer>)
    requires AllStepsLeft(writers) == 0
    ensures CountedSet(writers) == {}
  {
    if writers == [] {
    } else {
      NoStepsLeft(writers[..|writers| - 1]);
      forall w: nat | w < |writers|
        ensures !Counted(writers[w])
      {
        if w < |writers| - 1 {
          assert w !in CountedSet(writers[..|writers| - 1]);
        }
      }
    }
  }

  /** While the flag is up every step of a writer changes nothing or brings the writers nearer to rest; and once they
      have no step left none is counted, so the wait ends after finitely many steps of theirs. */
  lemma ResetWaitsForFew(r: seq<Ring>, j: nat, w: nat, t: Ring)
    requires IsRun(r) && j < |r| && r[j].resetting
    requires w < |r[j].writers| && WriterStep(r[j], w, t)
    ensures t == r[j] || AllStepsLeft(t.writers) < AllStepsLeft(r[j].writers)
    ensures AllStepsLeft(r[j].writers) == 0 ==> r[j].active == 0
  {
    hide AllStepsLeft;
    RunInv(r, j);
    var s := r[j];
    assert OwnerOk(s, w);
    StepsLeftUpdate(s.writers, w, t.writers[w]);
    assert s.writers[w := s.writers[w]] == s.writers;
    if AllStepsLeft(s.writers) == 0 {
      NoStepsLeft(s.writers);
    }
  }

  /** A reset that has begun to clear the ring clears the rest of it. */
  lemma {:induction false} ClearAll(r: seq<Ring>, i: nat, k: nat) returns (more: seq<Ring>)
    requires IsRun(r) && Last(r).gil == Clearing(i, k)
    ensures IsRun(more) && r <= more
    ensures |Last(more).slots| == RING_CAPACITY && Last(more).gil == Clearing(RING_CAPACITY, 0)
    ensures Last(more).writers == Last(r).writers && Last(more).sequence == Last(r).sequence
    decreases RING_CAPACITY - i, FIELDS + 1 - k
  {
    hide StepAt, Init;
    var s := Last(r);
    RunInv(r, |r| - 1);
    assert SlotInv(s);
    if i == RING_CAPACITY {
      more := r;
    } else {
      var slot := s.slots[i];
      var i1, k1 := if k == FIELDS then i + 1 else i, if k == FIELDS then 0 else k + 1;
      var cleared := if k == 0 then slot.(version := 0) else slot.(fields := slot.fields[k - 1 := 0]);
      var t := s.(slots := s.slots[i := cleared], gil := Clearing(i1, k1));
      assert ResetStep(s, t);
      Extend(r, t);
      more := ClearAll(r + [t], i1, k1);
    }
  }

  /** From every reachable state at rest a reset runs to its end and leaves the ring as new. */
  lemma ResetCompletes(r: seq<Ring>) returns (more: seq<Ring>)
    requires IsRun(r) && AtRest(Last(r))
    ensures IsRun(more) && r <= more
    ensures Init(Last(more))
  {
    hide StepAt, Next;
    var s := Last(r);
    RunInv(r, |r| - 1);
    assert CountedSet(s.writers) == {};
    var waiting := s.(resetting := true, gil := Waiting);
    more := ResetMoves(r, waiting);
    more := ResetMoves(more, waiting.(gil := Drained));
    more := ResetMoves(more, waiting.(sequence := 0, published := map[], gil := Clearing(0, 0)));
    more := ClearAll(more, 0, 0);
    RunInv(more, |more| - 1);
    assert SlotInv(Last(more)) && ActiveInv(Last(more));
    more := ResetMoves(more, Last(more).(resetting := false, gil := Free));
  }
}
