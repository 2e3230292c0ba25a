/**
 The segment store's directory tree as a state machine whose steps are the store's atomic file-system effects.

 A crash is a run that stops after any step, so a fact about every state of every run is a fact about every crash.
 SHA-256 is an injective constructor. Private temporary files are invisible and are not part of the state.
 */
module SegmentDisk {
  import opened Bytes

  const MAX_SEGMENT_BYTES: nat := 16 * 1024 * 1024
  const MAX_MANIFEST_BYTES: nat := 16 * 1024 * 1024
  const MAX_SEGMENTS_PER_GENERATION: nat := 1_000_000

  type Id = string

  datatype Digest = Sha256(preimage: seq<byte>)

  datatype Ref = Ref(sha256: Digest, size: nat)

  datatype Manifest = Manifest(generation: Id, parent: Option<Id>, createdNs: nat, segmentBytes: nat,
                               logicalSize: nat, logicalSha256: Digest, segments: seq<Ref>, metadata: seq<byte>)

  /** A generation directory holds no manifest yet, part of one, or a whole canonical one. */
  datatype ManifestFile = Missing | Torn | Whole(manifest: Manifest)

  /** The JSON side of a manifest: whether its trees are within the node budget, and the size of its canonical text. */
  datatype Json = Json(metadataOk: seq<byte> -> bool, treeOk: Manifest -> bool, encodedSize: Manifest -> nat)

  datatype Disk = Disk(segments: map<Digest, seq<byte>>, generations: map<Id, ManifestFile>, current: Option<Id>,
                       locked: bool)

  // ---- what it means for a generation to verify ----

  function SegmentAt(d: Disk, g: Digest): seq<byte> {
    if g in d.segments then d.segments[g] else []
  }

  /** The bytes a list of references stands for. */
  function RefBytes(d: Disk, refs: seq<Ref>): seq<byte> {
    if refs == [] then [] else RefBytes(d, refs[..|refs| - 1]) + SegmentAt(d, refs[|refs| - 1].sha256)
  }

  function TotalSize(refs: seq<Ref>): nat {
    if refs == [] then 0 else TotalSize(refs[..|refs| - 1]) + refs[|refs| - 1].size
  }

  predicate SegmentOk(d: Disk, ref: Ref) {
    && ref.sha256 in d.segments
    && |d.segments[ref.sha256]| == ref.size
    && Sha256(d.segments[ref.sha256]) == ref.sha256
  }

  /** The checks on a manifest that do not depend on the segments. */
  predicate HeaderOk(id: Id, m: Manifest, json: Json) {
    && json.encodedSize(m) <= MAX_MANIFEST_BYTES
    && json.treeOk(m)
    && m.generation == id
    && 1 <= m.segmentBytes <= MAX_SEGMENT_BYTES
    && 0 < |m.segments| <= MAX_SEGMENTS_PER_GENERATION
  }

  predicate RefOk(d: Disk, m: Manifest, ref: Ref) {
    ref.size <= m.segmentBytes && SegmentOk(d, ref)
  }

  ghost predicate ManifestOk(d: Disk, id: Id, m: Manifest, json: Json) {
    && HeaderOk(id, m, json)
    && (forall i :: 0 <= i < |m.segments| ==> RefOk(d, m, m.segments[i]))
    && TotalSize(m.segments) == m.logicalSize
    && Sha256(RefBytes(d, m.segments)) == m.logicalSha256
  }

  predicate HasManifest(d: Disk, id: Id) {
    id in d.generations && d.generations[id].Whole?
  }

  ghost predicate Verifies(d: Disk, id: Id, json: Json) {
    HasManifest(d, id) && ManifestOk(d, id, d.generations[id].manifest, json)
  }

  lemma {:induction false} RefBytesSize(d: Disk, refs: seq<Ref>)
    requires forall i :: 0 <= i < |refs| ==> SegmentOk(d, refs[i])
    ensures |RefBytes(d, refs)| == TotalSize(refs)
  {
    if refs == [] {
    } else {
      RefBytesSize(d, refs[..|refs| - 1]);
      assert SegmentOk(d, refs[|refs| - 1]);
    }
  }

  /** The logical bytes of a generation. */
  function GenerationBytes(d: Disk, id: Id): seq<byte>
    requires HasManifest(d, id)
  {
    RefBytes(d, d.generations[id].manifest.segments)
  }

  predicate References(d: Disk, id: Id, g: Digest)
    requires HasManifest(d, id)
  {
    exists i :: 0 <= i < |d.generations[id].manifest.segments| && d.generations[id].manifest.segments[i].sha256 == g
  }

  /** Every segment the manifest names is there, is the content of its name and has the size the manifest gives, which
      is at most its segment size. */
  ghost predicate SegmentsIntact(d: Disk, m: Manifest) {
    forall i :: 0 <= i < |m.segments| ==>
                  && m.segments[i].sha256 in d.segments
                  && Sha256(d.segments[m.segments[i].sha256]) == m.segments[i].sha256
                  && |d.segments[m.segments[i].sha256]| == m.segments[i].size <= m.segmentBytes
  }

  /** What verification guarantees: a whole manifest of this generation within the budgets, intact segments, and a
      logical size and digest that are those of the very bytes the segments hold. */
  lemma VerifiesExactly(d: Disk, id: Id, json: Json)
    ensures Verifies(d, id, json) <==>
            && HasManifest(d, id)
            && var m := d.generations[id].manifest;
               && m.generation == id
               && json.treeOk(m) && json.encodedSize(m) <= 16_777_216
               && 1 <= m.segmentBytes <= 16_777_216 && 1 <= |m.segments| <= 1_000_000
               && SegmentsIntact(d, m)
               && m.logicalSize == |GenerationBytes(d, id)|
               && m.logicalSha256 == Sha256(GenerationBytes(d, id))
  {
    if HasManifest(d, id) {
      var m := d.generations[id].manifest;
      if SegmentsIntact(d, m) {
        forall i | 0 <= i < |m.segments|
          ensures RefOk(d, m, m.segments[i])
        {
        }
        RefBytesSize(d, m.segments);
      }
      if Verifies(d, id, json) {
        forall i | 0 <= i < |m.segments|
          ensures RefOk(d, m, m.segments[i])
        {
        }
        assert SegmentsIntact(d, m);
      }
    }
  }

  // ---- steps ----

  datatype Step =
    | MakeLock
    | RemoveLock
    | MakeGeneration(id: Id)
    | LinkSegment(data: seq<byte>)
    | CreateManifest(id: Id)
    | WriteManifest(id: Id, manifest: Manifest)
    | ReplaceCurrent(id: Id)
    | UnlinkCurrent
    | UnlinkManifest(id: Id)
    | RemoveGeneration(id: Id)
    | UnlinkSegment(digest: Digest)

  /** Every generation on the disk verifies, and none of them refers to the segment. */
  ghost predicate Unreachable(d: Disk, g: Digest, json: Json) {
    forall id :: id in d.generations ==> Verifies(d, id, json) && !References(d, id, g)
  }

  /** When the store may take a step. */
  ghost predicate Allowed(d: Disk, e: Step, json: Json) {
    && (e.MakeLock? || d.locked)
    && match e
       case MakeLock => !d.locked
       case RemoveLock => true
       case MakeGeneration(id) => id !in d.generations
       case LinkSegment(data) => Sha256(data) !in d.segments
       case CreateManifest(id) => id in d.generations && d.generations[id] == Missing
       case WriteManifest(id, m) => id in d.generations && d.generations[id] == Torn
       case ReplaceCurrent(id) => Verifies(d, id, json)
       case UnlinkCurrent => true
       case UnlinkManifest(id) => HasManifest(d, id) && d.current != Some(id)
       case RemoveGeneration(id) => id in d.generations && d.generations[id] == Missing
       case UnlinkSegment(g) => g in d.segments && Unreachable(d, g, json)
  }

  function After(d: Disk, e: Step): Disk {
    match e
    case MakeLock => d.(locked := true)
    case RemoveLock => d.(locked := false)
    case MakeGeneration(id) => d.(generations := d.generations[id := Missing])
    case LinkSegment(data) => d.(segments := d.segments[Sha256(data) := data])
    case CreateManifest(id) => d.(generations := d.generations[id := Torn])
    case WriteManifest(id, m) => d.(generations := d.generations[id := Whole(m)])
    case ReplaceCurrent(id) => d.(current := Some(id))
    case UnlinkCurrent => d.(current := None)
    case UnlinkManifest(id) => d.(generations := d.generations[id := Missing])
    case RemoveGeneration(id) => d.(generations := d.generations - {id})
    case UnlinkSegment(g) => d.(segments := d.segments - {g})
  }

  // ---- the invariant ----

  /** Segments are named by their content, and the current pointer is absent or names a generation that verifies. */
  ghost predicate Inv(d: Disk, json: Json) {
    && (forall g :: g in d.segments ==> Sha256(d.segments[g]) == g)
    && (d.current.Some? ==> Verifies(d, d.current.value, json))
  }

  lemma {:induction false} RefBytesSame(d: Disk, d': Disk, refs: seq<Ref>)
    requires forall i :: 0 <= i < |refs| ==> SegmentAt(d, refs[i].sha256) == SegmentAt(d', refs[i].sha256)
    ensures RefBytes(d, refs) == RefBytes(d', refs)
  {
    if refs == [] {
    } else {
      RefBytesSame(d, d', refs[..|refs| - 1]);
    }
  }

  /** A generation keeps verifying, with the same bytes, while its manifest and its segments stay. */
  lemma GenerationStays(d: Disk, d': Disk, id: Id, json: Json)
    requires Verifies(d, id, json)
    requires id in d'.generations && d'.generations[id] == d.generations[id]
    requires forall g :: g in d.segments && References(d, id, g) ==> g in d'.segments && d'.segments[g] == d.segments[g]
    ensures Verifies(d', id, json) && GenerationBytes(d', id) == GenerationBytes(d, id)
  {
    var m := d.generations[id].manifest;
    forall i | 0 <= i < |m.segments|
      ensures RefOk(d', m, m.segments[i])
      ensures SegmentAt(d, m.segments[i].sha256) == SegmentAt(d', m.segments[i].sha256)
    {
      assert RefOk(d, m, m.segments[i]);
      assert References(d, id, m.segments[i].sha256);
    }
    RefBytesSame(d, d', m.segments);
  }

  /** Something outside the store has changed segment files, and nothing else. */
  ghost predicate SegmentsDamaged(d: Disk, d': Disk) {
    d' == d.(segments := d'.segments)
  }

  ghost predicate SameSegments(d: Disk, d': Disk, id: Id)
    requires HasManifest(d, id)
  {
    forall g :: References(d, id, g) ==> g in d.segments && g in d'.segments && d'.segments[g] == d.segments[g]
  }

  /** Any change to a segment a verifying generation needs is noticed. */
  lemma DamageIsSeen(d: Disk, d': Disk, id: Id, json: Json)
    requires SegmentsDamaged(d, d') && Verifies(d, id, json)
    ensures Verifies(d', id, json) <==> SameSegments(d, d', id)
  {
    var m := d.generations[id].manifest;
    VerifiesExactly(d, id, json);
    VerifiesExactly(d', id, json);
    if Verifies(d', id, json) {
      forall g | References(d, id, g)
        ensures g in d.segments && g in d'.segments && d'.segments[g] == d.segments[g]
      {
        var i :| 0 <= i < |m.segments| && m.segments[i].sha256 == g;
        assert Sha256(d'.segments[g]) == g == Sha256(d.segments[g]);
      }
    }
    if SameSegments(d, d', id) {
      GenerationStays(d, d', id, json);
    }
  }

  /** Only its own deletion can take a verifying generation away, or change what it holds. */
  lemma StepKeepsGeneration(d: Disk, e: Step, id: Id, json: Json)
    requires Allowed(d, e, json)
    requires Verifies(d, id, json) && e != UnlinkManifest(id)
    ensures Verifies(After(d, e), id, json)
    ensures GenerationBytes(After(d, e), id) == GenerationBytes(d, id)
    ensures After(d, e).generations[id] == d.generations[id]
  {
    hide ManifestOk;
    GenerationStays(d, After(d, e), id, json);
  }

  lemma StepKeepsInv(d: Disk, e: Step, json: Json)
    requires Inv(d, json) && Allowed(d, e, json)
    ensures Inv(After(d, e), json)
  {
    hide ManifestOk;
    if d.current.Some? && e != UnlinkManifest(d.current.value) {
      StepKeepsGeneration(d, e, d.current.value, json);
    }
    if e.ReplaceCurrent? {
      StepKeepsGeneration(d, e, e.id, json);
    }
  }

  // ---- runs ----

  ghost predicate StepAt(run: seq<Disk>, steps: seq<Step>, k: nat, json: Json)
    requires |run| == |steps| + 1 && k < |steps|
  {
    Allowed(run[k], steps[k], json) && run[k + 1] == After(run[k], steps[k])
  }

  ghost predicate IsRun(run: seq<Disk>, steps: seq<Step>, json: Json) {
    && |run| == |steps| + 1
    && forall k :: 0 <= k < |steps| ==> StepAt(run, steps, k, json)
  }

  lemma RunExtend(run: seq<Disk>, steps: seq<Step>, e: Step, json: Json)
    requires IsRun(run, steps, json) && Allowed(run[|steps|], e, json)
    ensures IsRun(run + [After(run[|steps|], e)], steps + [e], json)
  {
    hide Allowed, After;
    var run', steps' := run + [After(run[|steps|], e)], steps + [e];
    forall k | 0 <= k < |steps'| ensures StepAt(run', steps', k, json) {
      assert k < |steps| ==> StepAt(run, steps, k, json);
    }
  }

  /** Wherever a run stops, the current pointer is absent or names a generation that verifies. */
  lemma {:induction false} CurrentAlwaysVerifies(run: seq<Disk>, steps: seq<Step>, k: nat, json: Json)
    requires IsRun(run, steps, json) && k < |run|
    requires Inv(run[0], json)
    ensures Inv(run[k], json)
    ensures run[k].current.Some? ==> Verifies(run[k], run[k].current.value, json)
  {
    hide Allowed, After, Verifies;
    if k == 0 {
    } else {
      CurrentAlwaysVerifies(run, steps, k - 1, json);
      assert StepAt(run, steps, k - 1, json);
      StepKeepsInv(run[k - 1], steps[k - 1], json);
    }
  }

  /** Through any stretch of a run, a generation that verifies goes on verifying with the same bytes until it is
      itself deleted: commits, other deletions and collections leave it alone. */
  lemma {:induction false} GenerationsSurvive(run: seq<Disk>, steps: seq<Step>, i: nat, j: nat, id: Id, json: Json)
    requires IsRun(run, steps, json) && i <= j < |run|
    requires Verifies(run[i], id, json)
    requires forall k :: i <= k < j ==> steps[k] != UnlinkManifest(id)
    ensures Verifies(run[j], id, json)
    ensures GenerationBytes(run[j], id) == GenerationBytes(run[i], id)
    decreases j - i
  {
    hide Allowed, After, ManifestOk;
    if i == j {
    } else {
      assert StepAt(run, steps, i, json);
      StepKeepsGeneration(run[i], steps[i], id, json);
      GenerationsSurvive(run, steps, i + 1, j, id, json);
    }
  }

  /** A generation that is current is never deleted while it is current. */
  lemma CurrentIsNeverDeleted(run: seq<Disk>, steps: seq<Step>, k: nat, json: Json)
    requires IsRun(run, steps, json) && k < |steps| && Inv(run[0], json)
    requires run[k].current.Some?
    ensures Verifies(run[k], run[k].current.value, json) && Verifies(run[k + 1], run[k].current.value, json)
    ensures GenerationBytes(run[k + 1], run[k].current.value) == GenerationBytes(run[k], run[k].current.value)
  {
    hide ManifestOk;
    CurrentAlwaysVerifies(run, steps, k, json);
    assert StepAt(run, steps, k, json);
    StepKeepsGeneration(run[k], steps[k], run[k].current.value, json);
  }
}
