/**
 The segment store's operations as methods that change the disk one atomic step at a time.

 Every method leaves behind the run of disk states it went through; `Valid` says the run obeys the step rules, so
 the theorems about runs hold at every point where a method may be interrupted.
 */
module SegmentStore {
  import opened Bytes
  import opened Segments
  import opened SegmentDisk

  const IO_CHUNK_BYTES: nat := 1024 * 1024

  datatype StoreError =
    | LockHeld | InvalidMetadata | GenerationExists | TooManySegments | ManifestTooLarge | VerificationFailed
    | IsCurrent | NoCurrent

  datatype Outcome<+T> = Ok(value: T) | Err(error: StoreError)

  datatype CommitReport = CommitReport(manifest: Manifest, created: nat, reused: nat, bytesWritten: nat)

  datatype GcReport = GcReport(removed: set<Digest>, removedBytes: nat, retained: set<Digest>,
                               candidates: set<Digest>, invalid: set<Id>, blocked: bool)

  /** The references a stream is stored under. */
  function RefsOf(parts: seq<seq<byte>>): (refs: seq<Ref>)
    ensures |refs| == |parts|
  {
    seq(|parts|, i requires 0 <= i < |parts| => Ref(Sha256(parts[i]), |parts[i]|))
  }

  /** The segment files once a stream's parts have all been published. */
  function Linked(segments: map<Digest, seq<byte>>, parts: seq<seq<byte>>): map<Digest, seq<byte>> {
    if parts == [] then segments
    else Linked(segments, parts[..|parts| - 1])[Sha256(parts[|parts| - 1]) := parts[|parts| - 1]]
  }

  lemma LinkedStep(segments: map<Digest, seq<byte>>, parts: seq<seq<byte>>, i: nat)
    requires i <= |parts|
    ensures Linked(segments, parts[..0]) == segments
    ensures i < |parts| ==>
              Linked(segments, parts[..i + 1]) == Linked(segments, parts[..i])[Sha256(parts[i]) := parts[i]]
  {
    if i < |parts| {
      assert parts[..i + 1][..i] == parts[..i];
    }
  }

  predicate Includes(more: map<Digest, seq<byte>>, fewer: map<Digest, seq<byte>>) {
    forall g :: g in fewer ==> g in more && more[g] == fewer[g]
  }

  lemma IncludesItself(s: map<Digest, seq<byte>>)
    ensures Includes(s, s)
  {
  }

  lemma IncludesMore(a: map<Digest, seq<byte>>, b: map<Digest, seq<byte>>, c: map<Digest, seq<byte>>)
    requires Includes(a, b) && Includes(b, c)
    ensures Includes(a, c)
  {
  }

  /** The bytes all segment files occupy together. */
  ghost function StoredBytes(segments: map<Digest, seq<byte>>): nat {
    if segments == map[] then 0
    else
      var g :| g in segments;
      |segments[g]| + StoredBytes(segments - {g})
  }

  lemma {:induction false} StoredBytesWithout(segments: map<Digest, seq<byte>>, g: Digest)
    requires g in segments
    ensures StoredBytes(segments) == |segments[g]| + StoredBytes(segments - {g})
    ensures |segments - {g}| == |segments| - 1
    decreases |segments|
  {
    assert (segments - {g}).Keys == segments.Keys - {g};
    var h :| h in segments && StoredBytes(segments) == |segments[h]| + StoredBytes(segments - {h});
    if h != g {
      assert (segments - {h}).Keys == segments.Keys - {h};
      StoredBytesWithout(segments - {h}, g);
      StoredBytesWithout(segments - {g}, h);
      assert segments - {h} - {g} == segments - {g} - {h};
    }
  }

  lemma StoredBytesLink(segments: map<Digest, seq<byte>>, data: seq<byte>)
    ensures Sha256(data) !in segments ==>
              && StoredBytes(segments[Sha256(data) := data]) == StoredBytes(segments) + |data|
              && |segments[Sha256(data) := data]| == |segments| + 1
    ensures Sha256(data) in segments && segments[Sha256(data)] == data ==> segments[Sha256(data) := data] == segments
  {
    if Sha256(data) !in segments {
      StoredBytesWithout(segments[Sha256(data) := data], Sha256(data));
      assert segments[Sha256(data) := data] - {Sha256(data)} == segments;
    }
  }

  // ---- the manifest of a stream ----

  /** What a commit records about a stream: it depends on the stream's bytes, not on how they were chunked. */
  function ManifestFor(id: Id, parent: Option<Id>, createdNs: nat, n: nat, data: seq<byte>, metadata: seq<byte>)
    : Manifest
    requires n > 0
  {
    Manifest(id, parent, createdNs, n, |data|, Sha256(data), RefsOf(Cut(data, n)), metadata)
  }

  lemma {:induction false} LinkedHas(segments: map<Digest, seq<byte>>, parts: seq<seq<byte>>, i: nat)
    requires i < |parts|
    ensures Sha256(parts[i]) in Linked(segments, parts) && Linked(segments, parts)[Sha256(parts[i])] == parts[i]
  {
    if i == |parts| - 1 {
    } else {
      LinkedHas(segments, parts[..|parts| - 1], i);
    }
  }

  lemma {:induction false} RefsStandForParts(d: Disk, parts: seq<seq<byte>>)
    requires forall i :: 0 <= i < |parts| ==> SegmentAt(d, Sha256(parts[i])) == parts[i]
    ensures RefBytes(d, RefsOf(parts)) == Flatten(parts)
    ensures TotalSize(RefsOf(parts)) == |Flatten(parts)|
  {
    if parts == [] {
    } else {
      var k := |parts| - 1;
      RefsStandForParts(d, parts[..k]);
      assert RefsOf(parts)[..k] == RefsOf(parts[..k]);
      FlattenOne(parts[..k], parts[k]);
      assert parts[..k] + [parts[k]] == parts;
    }
  }

  /** Once a stream's segments are stored, its manifest verifies exactly when its header passes. */
  lemma StreamVerifies(d: Disk, id: Id, n: nat, data: seq<byte>, json: Json)
    requires n > 0 && HasManifest(d, id)
    requires var m := d.generations[id].manifest;
             m == ManifestFor(id, m.parent, m.createdNs, n, data, m.metadata)
    requires forall i :: 0 <= i < |Cut(data, n)| ==>
                           var p := Cut(data, n)[i]; Sha256(p) in d.segments && d.segments[Sha256(p)] == p
    ensures Verifies(d, id, json) <==> HeaderOk(id, d.generations[id].manifest, json)
    ensures GenerationBytes(d, id) == data
  {
    hide Cut, RefBytes, TotalSize, HeaderOk;
    var m := d.generations[id].manifest;
    CutCovers(data, n);
    RefsStandForParts(d, Cut(data, n));
    forall i | 0 <= i < |m.segments| ensures RefOk(d, m, m.segments[i]) {
      var p := Cut(data, n)[i];
      assert m.segments[i] == Ref(Sha256(p), |p|);
    }
  }

  /** The logical size and digest the commit accumulates segment by segment. */
  function LengthOf(parts: seq<seq<byte>>): nat {
    |Flatten(parts)|
  }

  function DigestOf(parts: seq<seq<byte>>): Digest {
    Sha256(Flatten(parts))
  }

  lemma PartsStored(segments: map<Digest, seq<byte>>, parts: seq<seq<byte>>)
    ensures forall i :: 0 <= i < |parts| ==>
                          var p := parts[i];
                          Sha256(p) in Linked(segments, parts) && Linked(segments, parts)[Sha256(p)] == p
  {
    forall i | 0 <= i < |parts|
      ensures var p := parts[i]; Sha256(p) in Linked(segments, parts) && Linked(segments, parts)[Sha256(p)] == p
    {
      LinkedHas(segments, parts, i);
    }
  }

  lemma TooLongHeader(id: Id, m: Manifest, json: Json)
    ensures |m.segments| > MAX_SEGMENTS_PER_GENERATION ==> !HeaderOk(id, m, json)
  {
  }

  predicate SameElsewhere(before: map<Id, ManifestFile>, after: map<Id, ManifestFile>, id: Id) {
    forall k :: k in before.Keys + after.Keys && k != id ==> k in before && k in after && before[k] == after[k]
  }

  /** What a commit that fails may leave behind: more segments, and at most its own unpromoted generation. */
  predicate Abandoned(d: Disk, d': Disk, id: Id) {
    && d'.current == d.current && d'.locked == d.locked
    && Includes(d'.segments, d.segments)
    && (d'.generations == d.generations || (id !in d.generations && SameElsewhere(d.generations, d'.generations, id)))
  }

  lemma OthersStay(before: map<Id, ManifestFile>, after: map<Id, ManifestFile>, id: Id)
    requires SameElsewhere(before[id := Missing], after, id)
    ensures SameElsewhere(before, after, id)
  {
  }

  lemma SameAsItself(before: map<Id, ManifestFile>, id: Id)
    ensures SameElsewhere(before, before, id)
  {
  }

  lemma Overwritten(before: map<Id, ManifestFile>, id: Id, file: ManifestFile)
    ensures before[id := Missing][id := file] == before[id := file]
  {
  }

  ghost predicate StillVerifies(d: Disk, d': Disk, id: Id, json: Json) {
    Verifies(d, id, json) ==> Verifies(d', id, json) && GenerationBytes(d', id) == GenerationBytes(d, id)
  }

  /** Every generation but one that verified still verifies, with the same bytes. */
  ghost predicate OthersVerify(d: Disk, d': Disk, id: Id, json: Json) {
    forall other :: other != id ==> StillVerifies(d, d', other, json)
  }

  lemma OthersVerifyGrown(d: Disk, d': Disk, id: Id, json: Json)
    requires Includes(d'.segments, d.segments) && SameElsewhere(d.generations, d'.generations, id)
    ensures OthersVerify(d, d', id, json)
  {
    hide ManifestOk, GenerationBytes;
    forall other | other != id ensures StillVerifies(d, d', other, json) {
      if Verifies(d, other, json) {
        assert other in d.generations.Keys + d'.generations.Keys;
        GenerationStays(d, d', other, json);
      }
    }
  }

  lemma OtherVerifies(d: Disk, d': Disk, id: Id, other: Id, json: Json)
    requires OthersVerify(d, d', id, json) && other != id && Verifies(d, other, json)
    ensures Verifies(d', other, json)
  {
    assert StillVerifies(d, d', other, json);
  }

  lemma OthersVerifyBetween(a: Disk, b: Disk, c: Disk, d: Disk, id: Id, json: Json)
    requires a.segments == b.segments && a.generations == b.generations
    requires c.segments == d.segments && c.generations == d.generations
    requires OthersVerify(b, c, id, json)
    ensures OthersVerify(a, d, id, json)
  {
    hide Verifies;
    forall other | other != id ensures StillVerifies(a, d, other, json) {
      assert StillVerifies(b, c, other, json);
      VerifiesUnlocked(a, b, other, json);
      VerifiesUnlocked(c, d, other, json);
      VerifiedHasManifest(a, other, json);
      VerifiedHasManifest(c, other, json);
    }
  }

  lemma VerifiedHasManifest(d: Disk, id: Id, json: Json)
    ensures Verifies(d, id, json) ==> HasManifest(d, id)
  {
  }

  // ---- reference counts ----

  /** The generations among `ids` that verify and refer to a segment. */
  ghost function Referrers(d: Disk, ids: set<Id>, g: Digest, json: Json): set<Id> {
    set id | id in ids && Verifies(d, id, json) && References(d, id, g)
  }

  ghost predicate CountAt(counts: map<Digest, nat>, d: Disk, ids: set<Id>, g: Digest, json: Json) {
    && (g in counts <==> Referrers(d, ids, g, json) != {})
    && (g in counts ==> counts[g] == |Referrers(d, ids, g, json)|)
  }

  /** Every segment that some generation among `ids` needs, with the number of generations that need it. */
  ghost predicate Counts(counts: map<Digest, nat>, d: Disk, ids: set<Id>, json: Json) {
    forall g :: CountAt(counts, d, ids, g, json)
  }

  /** A map of counts with one more for each member of a set. */
  ghost predicate Incremented(counts: map<Digest, nat>, counts': map<Digest, nat>, digests: set<Digest>, g: Digest) {
    && (g in counts' <==> g in counts || g in digests)
    && (g in counts' ==> counts'[g] == (if g in counts then counts[g] else 0) + if g in digests then 1 else 0)
  }

  method AddReferences(counts: map<Digest, nat>, digests: set<Digest>) returns (r: map<Digest, nat>)
    ensures forall g :: Incremented(counts, r, digests, g)
  {
    r := counts;
    var todo := digests;
    while todo != {}
      invariant todo <= digests
      invariant forall g :: Incremented(counts, r, digests - todo, g)
      decreases todo
    {
      var g :| g in todo;
      assert Incremented(counts, r, digests - todo, g);
      var r' := r[g := (if g in r then r[g] else 0) + 1];
      forall h ensures Incremented(counts, r', digests - (todo - {g}), h) {
        assert Incremented(counts, r, digests - todo, h);
      }
      r := r';
      todo := todo - {g};
    }
    assert digests - todo == digests;
  }

  lemma CountStep(counts: map<Digest, nat>, counts': map<Digest, nat>, d: Disk, ids: set<Id>, id: Id,
                  digests: set<Digest>, g: Digest, json: Json)
    requires CountAt(counts, d, ids, g, json) && id !in ids
    requires g in digests <==> Verifies(d, id, json) && References(d, id, g)
    requires Incremented(counts, counts', digests, g)
    ensures CountAt(counts', d, ids + {id}, g, json)
  {
    hide Verifies, References;
    var was, now := Referrers(d, ids, g, json), Referrers(d, ids + {id}, g, json);
    assert now == was + if g in digests then {id} else {};
  }

  /** The stored segments that no generation that verifies refers to. */
  ghost function Garbage(d: Disk, json: Json): set<Digest> {
    set g | g in d.segments && Referrers(d, d.generations.Keys, g, json) == {}
  }

  ghost function Invalid(d: Disk, json: Json): set<Id> {
    set id | id in d.generations && !Verifies(d, id, json)
  }

  lemma UnreachableIffScanned(d: Disk, counts: map<Digest, nat>, g: Digest, json: Json)
    requires Counts(counts, d, d.generations.Keys, json)
    ensures Unreachable(d, g, json) <==> Invalid(d, json) == {} && g !in counts
  {
    hide ManifestOk, References;
    assert CountAt(counts, d, d.generations.Keys, g, json);
    if Unreachable(d, g, json) {
      assert Invalid(d, json) == {} && Referrers(d, d.generations.Keys, g, json) == {};
    }
    if Invalid(d, json) == {} && g !in counts {
      forall id | id in d.generations ensures Verifies(d, id, json) && !References(d, id, g) {
        assert id !in Invalid(d, json);
        assert id !in Referrers(d, d.generations.Keys, g, json);
      }
    }
  }

  lemma UnlinkKeepsUnreachable(d: Disk, gone: Digest, g: Digest, json: Json)
    requires Allowed(d, UnlinkSegment(gone), json) && Unreachable(d, g, json)
    ensures Unreachable(After(d, UnlinkSegment(gone)), g, json)
  {
    hide ManifestOk;
    forall id | id in d.generations ensures Verifies(After(d, UnlinkSegment(gone)), id, json) {
      StepKeepsGeneration(d, UnlinkSegment(gone), id, json);
    }
  }

  lemma OneFewer(segments: map<Digest, seq<byte>>, candidates: set<Digest>, todo: set<Digest>, g: Digest)
    requires g in todo && todo <= candidates
    ensures segments - (candidates - todo) - {g} == segments - (candidates - (todo - {g}))
  {
  }

  lemma SameGarbage(d: Disk, d': Disk, json: Json)
    requires d'.segments == d.segments && d'.generations == d.generations
    ensures Garbage(d', json) == Garbage(d, json) && Invalid(d', json) == Invalid(d, json)
  {
    hide Verifies, References;
    forall id ensures Verifies(d, id, json) <==> Verifies(d', id, json) {
      VerifiesUnlocked(d, d', id, json);
    }
    forall g ensures Referrers(d, d.generations.Keys, g, json) == Referrers(d', d'.generations.Keys, g, json) {
      SameReferrers(d, d', g, json);
    }
  }

  lemma SameReferrers(d: Disk, d': Disk, g: Digest, json: Json)
    requires d'.generations == d.generations
    requires forall id :: Verifies(d, id, json) <==> Verifies(d', id, json)
    ensures Referrers(d, d.generations.Keys, g, json) == Referrers(d', d'.generations.Keys, g, json)
  {
    hide ManifestOk;
  }

  lemma GarbageScanned(d: Disk, counts: map<Digest, nat>, candidates: set<Digest>, invalid: set<Id>, json: Json)
    requires Counts(counts, d, d.generations.Keys, json)
    requires candidates == set g | g in d.segments && g !in counts
    requires invalid == set id | id in d.generations && !Verifies(d, id, json)
    ensures candidates == Garbage(d, json) && invalid == Invalid(d, json)
    ensures invalid == {} ==> forall g :: g in candidates ==> Unreachable(d, g, json)
  {
    hide Verifies, References, Referrers, Unreachable;
    forall g | g in d.segments ensures g in candidates <==> g in Garbage(d, json) {
      assert CountAt(counts, d, d.generations.Keys, g, json);
    }
    if invalid == {} {
      forall g | g in candidates ensures Unreachable(d, g, json) {
        UnreachableIffScanned(d, counts, g, json);
      }
    }
  }

  /** Removing segments that no verifying generation refers to leaves every one of them as it was. */
  lemma CollectKeepsGenerations(d: Disk, d': Disk, removed: set<Digest>, json: Json)
    requires removed <= Garbage(d, json)
    requires d'.generations == d.generations && d'.segments == d.segments - removed
    ensures forall id :: StillVerifies(d, d', id, json)
  {
    hide ManifestOk, GenerationBytes, References;
    forall id ensures StillVerifies(d, d', id, json) {
      if Verifies(d, id, json) {
        forall g | g in d.segments && References(d, id, g) ensures g in d'.segments {
          assert id in Referrers(d, d.generations.Keys, g, json);
        }
        GenerationStays(d, d', id, json);
      }
    }
  }

  function DigestsOf(refs: seq<Ref>): (r: set<Digest>)
    ensures forall g :: g in r <==> exists i :: 0 <= i < |refs| && refs[i].sha256 == g
  {
    set i | 0 <= i < |refs| :: refs[i].sha256
  }

  lemma DigestsAreReferences(d: Disk, id: Id, digests: set<Digest>, info: Option<Manifest>, json: Json)
    requires info.Some? <==> Verifies(d, id, json)
    requires info.Some? ==> d.generations[id] == Whole(info.value) && digests == DigestsOf(info.value.segments)
    requires info.None? ==> digests == {}
    ensures forall g :: g in digests <==> Verifies(d, id, json) && References(d, id, g)
  {
    hide ManifestOk;
  }

  lemma NoReferrers(d: Disk, json: Json)
    ensures Counts(map[], d, {}, json)
  {
    hide Verifies, References;
    forall g ensures CountAt(map[], d, {}, g, json) {
      assert Referrers(d, {}, g, json) == {};
    }
  }

  class ImmutableSegmentStore {
    const segmentBytes: nat
    const json: Json
    var disk: Disk
    ghost var run: seq<Disk>
    ghost var steps: seq<Step>

    ghost predicate Valid()
      reads this
    {
      && 1 <= segmentBytes <= MAX_SEGMENT_BYTES
      && IsRun(run, steps, json)
      && Inv(run[0], json)
      && disk == run[|steps|]
      && Inv(disk, json)
    }

    /** Opens a store on whatever is found on the disk; what an earlier process left behind satisfies the invariant. */
    constructor (found: Disk, segmentBytes: nat, json: Json)
      requires 1 <= segmentBytes <= MAX_SEGMENT_BYTES
      ensures Inv(found, json) ==> Valid()
      ensures disk == found && this.segmentBytes == segmentBytes && this.json == json
      ensures run == [found] && steps == []
    {
      this.segmentBytes, this.json, disk := segmentBytes, json, found;
      run, steps := [found], [];
    }

    /** One atomic effect on the disk. */
    method Do(e: Step)
      requires Valid() && Allowed(disk, e, json)
      modifies this
      ensures Valid() && disk == After(old(disk), e)
      ensures run == old(run) + [disk] && steps == old(steps) + [e]
    {
      hide Allowed, After, Verifies;
      StepKeepsInv(disk, e, json);
      RunExtend(run, steps, e, json);
      disk := After(disk, e);
      run, steps := run + [disk], steps + [e];
    }

    /** Re-reads a generation's manifest and every segment it names, on any disk at all. */
    method Verify(id: Id) returns (r: Option<Manifest>)
      ensures r.Some? <==> Verifies(disk, id, json)
      ensures r.Some? ==> id in disk.generations && disk.generations[id] == Whole(r.value)
      ensures r.Some? ==> r.value.generation == id && r.value.logicalSize == |GenerationBytes(disk, id)|
      ensures r.Some? ==> r.value.logicalSha256 == Sha256(GenerationBytes(disk, id))
    {
      VerifiesExactly(disk, id, json);
      if !HasManifest(disk, id) {
        return None;
      }
      var m := disk.generations[id].manifest;
      if !HeaderOk(id, m, json) {
        return None;
      }
      var data, size := [], 0;
      for i := 0 to |m.segments|
        invariant forall j :: 0 <= j < i ==> RefOk(disk, m, m.segments[j])
        invariant data == RefBytes(disk, m.segments[..i]) && size == TotalSize(m.segments[..i])
      {
        var ref := m.segments[i];
        if !RefOk(disk, m, ref) {
          return None;
        }
        assert m.segments[..i + 1][..i] == m.segments[..i];
        data := data + disk.segments[ref.sha256];
        size := size + ref.size;
      }
      assert m.segments[..|m.segments|] == m.segments;
      if size != m.logicalSize || Sha256(data) != m.logicalSha256 {
        return None;
      }
      r := Some(m);
    }

    /** Streams the bytes of the named generation, or of the current one. */
    method IterGenerationBytes(wanted: Option<Id>) returns (r: Outcome<seq<seq<byte>>>)
      ensures r == Err(NoCurrent) <==> wanted.None? && disk.current.None?
      ensures wanted.None? && disk.current.Some? ==> (r.Ok? <==> Verifies(disk, disk.current.value, json))
      ensures wanted.None? && disk.current.Some? && Valid() ==> r.Ok?
      ensures wanted.Some? ==> (r.Ok? <==> Verifies(disk, wanted.value, json))
      ensures r.Ok? ==> var id := if wanted.Some? then wanted.value else disk.current.value;
                        HasManifest(disk, id) && Flatten(r.value) == GenerationBytes(disk, id)
    {
      hide ManifestOk, IsRun;
      var resolved := if wanted.Some? then wanted else disk.current;
      if resolved.None? {
        return Err(NoCurrent);
      }
      var info := Verify(resolved.value);
      if info.None? {
        return Err(VerificationFailed);
      }
      VerifiedRefs(disk, resolved.value, json);
      var refs, chunks := info.value.segments, [];
      for i := 0 to |refs|
        invariant Flatten(chunks) == RefBytes(disk, refs[..i])
      {
        assert refs[..i + 1][..i] == refs[..i];
        assert RefOk(disk, info.value, refs[i]);
        var pieces := Pieces(disk.segments[refs[i].sha256], IO_CHUNK_BYTES);
        FlattenAppend(chunks, pieces);
        chunks := chunks + pieces;
      }
      assert refs[..|refs|] == refs;
      r := Ok(chunks);
    }

    /** Publishes one segment unless its content is already stored. */
    method StoreSegment(data: seq<byte>) returns (created: bool)
      requires Valid() && disk.locked
      modifies this
      ensures Valid() && old(run) <= run
      ensures disk == old(disk).(segments := old(disk).segments[Sha256(data) := data])
      ensures created <==> Sha256(data) !in old(disk).segments
      ensures Includes(disk.segments, old(disk).segments)
      ensures |disk.segments| == |old(disk).segments| + if created then 1 else 0
      ensures StoredBytes(disk.segments) == StoredBytes(old(disk).segments) + if created then |data| else 0
    {
      hide Verifies, StoredBytes;
      StoredBytesLink(disk.segments, data);
      if Sha256(data) in disk.segments {
        if !SegmentOk(disk, Ref(Sha256(data), |data|)) {
          assert false;
        }
        assert disk.segments[Sha256(data) := data] == disk.segments;
        return false;
      }
      Do(LinkSegment(data));
      created := true;
    }

    /** Publishes the segments of a stream in order, up to the segment-count budget. */
    method StoreSegments(parts: seq<seq<byte>>) returns (ok: bool, created: nat, written: nat)
      requires Valid() && disk.locked
      modifies this
      ensures Valid() && old(run) <= run
      ensures ok <==> |parts| <= MAX_SEGMENTS_PER_GENERATION
      ensures ok ==> disk == old(disk).(segments := Linked(old(disk).segments, parts))
      ensures disk == old(disk).(segments := disk.segments) && Includes(disk.segments, old(disk).segments)
      ensures |disk.segments| == |old(disk).segments| + created && created <= |parts|
      ensures StoredBytes(disk.segments) == StoredBytes(old(disk).segments) + written
    {
      hide Valid, StoredBytes, Linked, Includes;
      LinkedStep(disk.segments, parts, 0);
      IncludesItself(disk.segments);
      created, written := 0, 0;
      for i := 0 to |parts|
        invariant Valid() && disk.locked && old(run) <= run
        invariant i <= MAX_SEGMENTS_PER_GENERATION
        invariant disk == old(disk).(segments := Linked(old(disk).segments, parts[..i]))
        invariant Includes(disk.segments, old(disk).segments)
        invariant |disk.segments| == |old(disk).segments| + created && created <= i
        invariant StoredBytes(disk.segments) == StoredBytes(old(disk).segments) + written
      {
        LinkedStep(old(disk).segments, parts, i);
        ghost var before := disk.segments;
        var fresh' := StoreSegment(parts[i]);
        IncludesMore(disk.segments, before, old(disk).segments);
        if fresh' {
          created, written := created + 1, written + |parts[i]|;
        }
        if i + 1 > MAX_SEGMENTS_PER_GENERATION {
          return false, created, written;
        }
      }
      assert parts[..|parts|] == parts;
      ok := true;
    }

    /** The manifest this store writes for a stream committed now. */
    ghost function StreamManifest(id: Id, createdNs: nat, data: seq<byte>, metadata: seq<byte>): Manifest
      requires segmentBytes > 0
      reads this
    {
      ManifestFor(id, disk.current, createdNs, segmentBytes, data, metadata)
    }

    /** Writes the manifest of a stream whose segments are stored, and promotes it if it verifies. */
    method Promote(m: Manifest, ghost data: seq<byte>) returns (r: Option<StoreError>)
      requires Valid() && disk.locked
      requires m == StreamManifest(m.generation, m.createdNs, data, m.metadata)
      requires m.generation in disk.generations && disk.generations[m.generation] == Missing
      requires forall i :: 0 <= i < |Cut(data, segmentBytes)| ==>
                             var p := Cut(data, segmentBytes)[i];
                             Sha256(p) in disk.segments && disk.segments[Sha256(p)] == p
      requires |m.segments| <= MAX_SEGMENTS_PER_GENERATION
      modifies this
      ensures Valid() && old(run) <= run
      ensures r.None? <==> HeaderOk(m.generation, m, json)
      ensures r.None? ==> disk == old(disk).(generations := old(disk).generations[m.generation := Whole(m)],
                                             current := Some(m.generation))
      ensures r.Some? ==> m.generation in disk.generations
      ensures r == Some(ManifestTooLarge) <==> json.encodedSize(m) > 16_777_216
      ensures r.Some? ==> r.value in {ManifestTooLarge, VerificationFailed}
      ensures r == Some(ManifestTooLarge) ==> disk == old(disk)
      ensures r == Some(VerificationFailed) ==>
                disk == old(disk).(generations := old(disk).generations[m.generation := Whole(m)])
      ensures SameElsewhere(old(disk).generations, disk.generations, m.generation)
      ensures r.None? ==> Verifies(disk, m.generation, json) && GenerationBytes(disk, m.generation) == data
    {
      hide Cut, ManifestOk, RefBytes;
      var id := m.generation;
      if json.encodedSize(m) > MAX_MANIFEST_BYTES {
        return Some(ManifestTooLarge);
      }
      Do(CreateManifest(id));
      Do(WriteManifest(id, m));
      StreamVerifies(disk, id, segmentBytes, data, json);
      var info := Verify(id);
      if info.None? {
        return Some(VerificationFailed);
      }
      Do(ReplaceCurrent(id));
      StreamVerifies(disk, id, segmentBytes, data, json);
      r := None;
    }

    /** Stores the segments of a stream and promotes it as the generation whose directory has just been made. */
    method FillGeneration(chunks: seq<seq<byte>>, id: Id, createdNs: nat, metadata: seq<byte>)
      returns (r: Outcome<CommitReport>)
      requires Valid() && disk.locked
      requires id in disk.generations && disk.generations[id] == Missing
      modifies this
      ensures Valid() && old(run) <= run
      ensures var m := old(StreamManifest(id, createdNs, Flatten(chunks), metadata));
              && (r.Ok? <==> HeaderOk(id, m, json))
              && (r.Ok? ==> r.value.manifest == m)
              && (r.Ok? ==> disk == Disk(Linked(old(disk).segments, Cut(Flatten(chunks), segmentBytes)),
                                         old(disk).generations[id := Whole(m)], Some(id), true))
      ensures r.Ok? ==> Verifies(disk, id, json) && GenerationBytes(disk, id) == Flatten(chunks)
      ensures r.Ok? ==> Accounted(old(disk), r.value)
      ensures Includes(disk.segments, old(disk).segments)
      ensures r.Err? ==> disk.locked && disk.current == old(disk).current
      ensures id in disk.generations && SameElsewhere(old(disk).generations, disk.generations, id)
    {
      hide Verifies, HeaderOk, Linked, Cut, Flatten, StoredBytes, Includes, IsRun, Inv, SameElsewhere;
      SameAsItself(disk.generations, id);
      var parent := disk.current;
      var parts := SplitStream(chunks, segmentBytes);
      var ok, created, written := StoreSegments(parts);
      TooLongHeader(id, old(StreamManifest(id, createdNs, Flatten(chunks), metadata)), json);
      if !ok {
        return Err(TooManySegments);
      }
      ghost var data := Flatten(chunks);
      CutCovers(data, segmentBytes);
      PartsStored(old(disk).segments, parts);
      var m := Manifest(id, parent, createdNs, segmentBytes, LengthOf(parts), DigestOf(parts), RefsOf(parts), metadata);
      var failed := Promote(m, data);
      if failed.Some? {
        return Err(failed.value);
      }
      r := Ok(CommitReport(m, created, |parts| - created, written));
    }

    lemma Positive()
      requires Valid()
      ensures segmentBytes > 0
    {
    }

    /** A commit made while the mutation lock is held. */
    method CommitLocked(chunks: seq<seq<byte>>, id: Id, createdNs: nat, metadata: seq<byte>)
      returns (r: Outcome<CommitReport>)
      requires Valid() && disk.locked
      modifies this
      ensures Valid() && old(run) <= run
      ensures var m := old(StreamManifest(id, createdNs, Flatten(chunks), metadata));
              && (r.Ok? <==> json.metadataOk(metadata) && id !in old(disk).generations && HeaderOk(id, m, json))
              && (r.Ok? ==> r.value.manifest == m)
              && (r.Ok? ==> disk == Disk(Linked(old(disk).segments, Cut(Flatten(chunks), segmentBytes)),
                                         old(disk).generations[id := Whole(m)], Some(id), true))
      ensures r.Ok? ==> Verifies(disk, id, json) && GenerationBytes(disk, id) == Flatten(chunks)
      ensures r.Ok? ==> Accounted(old(disk), r.value)
      ensures r.Err? ==> Abandoned(old(disk), disk, id)
      ensures OthersVerify(old(disk), disk, id, json)
    {
      hide Verifies, GenerationBytes, HeaderOk, Linked, Cut, Flatten, StoredBytes, Includes, Valid, ManifestFor,
           OthersVerify, SameElsewhere;
      Positive();
      SameAsItself(disk.generations, id);
      IncludesItself(disk.segments);
      OthersVerifyGrown(disk, disk, id, json);
      if !json.metadataOk(metadata) {
        return Err(InvalidMetadata);
      }
      if id in disk.generations {
        return Err(GenerationExists);
      }
      Do(MakeGeneration(id));
      r := FillGeneration(chunks, id, createdNs, metadata);
      Overwritten(old(disk).generations, id, Whole(old(StreamManifest(id, createdNs, Flatten(chunks), metadata))));
      OthersStay(old(disk).generations, disk.generations, id);
      OthersVerifyGrown(old(disk), disk, id, json);
    }

    /** The commit report's arithmetic: segments and bytes by which the store has grown. */
    ghost predicate Accounted(before: Disk, report: CommitReport)
      reads this
    {
      && report.created + report.reused == |report.manifest.segments|
      && |disk.segments| == |before.segments| + report.created
      && StoredBytes(disk.segments) == StoredBytes(before.segments) + report.bytesWritten
    }

    /** Commits a stream: on success it is current and reads back, on failure the current generation is untouched. */
    method CommitStream(chunks: seq<seq<byte>>, id: Id, createdNs: nat, metadata: seq<byte>)
      returns (r: Outcome<CommitReport>)
      requires Valid()
      modifies this
      ensures Valid() && old(run) <= run
      ensures var m := old(StreamManifest(id, createdNs, Flatten(chunks), metadata));
              && (r.Ok? <==> && !old(disk).locked && json.metadataOk(metadata)
                             && id !in old(disk).generations && HeaderOk(id, m, json))
              && (r.Ok? ==> r.value.manifest == m)
              && (r.Ok? ==> disk == Disk(Linked(old(disk).segments, Cut(Flatten(chunks), segmentBytes)),
                                         old(disk).generations[id := Whole(m)], Some(id), false))
      ensures r.Ok? ==> Verifies(disk, id, json) && GenerationBytes(disk, id) == Flatten(chunks)
      ensures r.Ok? ==> Accounted(old(disk), r.value)
      ensures r.Err? ==> Abandoned(old(disk), disk, id)
      ensures OthersVerify(old(disk), disk, id, json)
    {
      hide Verifies, GenerationBytes, HeaderOk, Linked, Cut, Flatten, StoredBytes, Includes, IsRun, Inv, ManifestFor,
           OthersVerify, SameElsewhere;
      SameAsItself(disk.generations, id);
      IncludesItself(disk.segments);
      OthersVerifyGrown(disk, disk, id, json);
      if disk.locked {
        return Err(LockHeld);
      }
      Do(MakeLock);
      ghost var locked := disk;
      r := CommitLocked(chunks, id, createdNs, metadata);
      ghost var committed := disk;
      Do(RemoveLock);
      VerifiesUnlocked(committed, disk, id, json);
      OthersVerifyBetween(old(disk), locked, committed, disk, id, json);
    }

    /** Commits a mount's image; if the mount changed meanwhile the pointer goes back to where it was. */
    method CommitMount(chunks: seq<seq<byte>>, id: Id, createdNs: nat, metadata: seq<byte>, changed: bool)
      returns (r: Option<CommitReport>)
      requires Valid()
      modifies this
      ensures Valid() && old(run) <= run
      ensures r.Some? <==> && !old(disk).locked && json.metadataOk(metadata) && id !in old(disk).generations
                           && HeaderOk(id, old(StreamManifest(id, createdNs, Flatten(chunks), metadata)), json)
                           && !changed
      ensures r.Some? ==> disk.current == Some(id) && HasManifest(disk, id)
      ensures r.Some? ==> GenerationBytes(disk, id) == Flatten(chunks)
      ensures r.None? ==> disk.current == old(disk).current
      ensures OthersVerify(old(disk), disk, id, json)
    {
      hide Verifies, GenerationBytes, HeaderOk, Linked, Cut, Flatten, StoredBytes, Includes, IsRun, ManifestFor,
           OthersVerify, SameElsewhere;
      SameAsItself(disk.generations, id);
      IncludesItself(disk.segments);
      OthersVerifyGrown(disk, disk, id, json);
      if disk.locked {
        return None;
      }
      Do(MakeLock);
      var previous := disk.current;
      ghost var locked := disk;
      if previous.Some? {
        VerifiedHasManifest(disk, previous.value, json);
      }
      var commit := CommitLocked(chunks, id, createdNs, metadata);
      ghost var committed := disk;
      r := None;
      if commit.Ok? {
        if !changed {
          r := Some(commit.value);
        } else if previous.None? {
          Do(UnlinkCurrent);
        } else {
          OtherVerifies(locked, disk, id, previous.value, json);
          Do(ReplaceCurrent(previous.value));
        }
      }
      Do(RemoveLock);
      VerifiesUnlocked(committed, disk, id, json);
      OthersVerifyBetween(old(disk), locked, committed, disk, id, json);
    }

    /** Reads every generation: how many need each segment, and which do not verify. */
    method ReferenceScan() returns (counts: map<Digest, nat>, invalid: set<Id>)
      requires Valid()
      ensures invalid == set id | id in disk.generations && !Verifies(disk, id, json)
      ensures Counts(counts, disk, disk.generations.Keys, json)
    {
      hide Verifies, References, Inv, IsRun, Referrers;
      counts, invalid := map[], {};
      ghost var done: set<Id> := {};
      var todo := disk.generations.Keys;
      NoReferrers(disk, json);
      while todo != {}
        invariant done + todo == disk.generations.Keys && done !! todo
        invariant forall id :: id in invalid <==> id in done && !Verifies(disk, id, json)
        invariant Counts(counts, disk, done, json)
        decreases todo
      {
        var id :| id in todo;
        var info := Verify(id);
        var digests := {};
        if info.Some? {
          digests := DigestsOf(info.value.segments);
        } else {
          invalid := invalid + {id};
        }
        var counts' := AddReferences(counts, digests);
        DigestsAreReferences(disk, id, digests, info, json);
        forall g ensures CountAt(counts', disk, done + {id}, g, json) {
          assert CountAt(counts, disk, done, g, json) && Incremented(counts, counts', digests, g);
          CountStep(counts, counts', disk, done, id, digests, g, json);
        }
        counts := counts';
        todo, done := todo - {id}, done + {id};
      }
      assert done == disk.generations.Keys;
    }

    /** One complete pass over the generations to prove that a segment can go. */
    method ProveUnreachable(g: Digest) returns (ok: bool)
      requires Valid()
      ensures ok <==> Unreachable(disk, g, json)
    {
      hide Unreachable, Verifies, Counts, Valid;
      var counts, invalid := ReferenceScan();
      UnreachableIffScanned(disk, counts, g, json);
      ok := invalid == {} && g !in counts;
    }

    /** Unlinks one candidate after proving twice more that it is unreachable. */
    method UnlinkCandidate(g: Digest) returns (size: nat)
      requires Valid() && disk.locked && g in disk.segments && Unreachable(disk, g, json)
      modifies this
      ensures Valid() && old(run) <= run
      ensures disk == old(disk).(segments := old(disk).segments - {g})
      ensures StoredBytes(disk.segments) + size == StoredBytes(old(disk).segments)
      ensures forall h :: Unreachable(old(disk), h, json) ==> Unreachable(disk, h, json)
    {
      hide Unreachable, Valid, StoredBytes;
      var first := ProveUnreachable(g);
      var final := ProveUnreachable(g);
      if !first || !final {
        assert false;
      }
      size := |disk.segments[g]|;
      StoredBytesWithout(disk.segments, g);
      forall h | Unreachable(disk, h, json) ensures Unreachable(After(disk, UnlinkSegment(g)), h, json) {
        UnlinkKeepsUnreachable(disk, g, h, json);
      }
      Do(UnlinkSegment(g));
    }

    /** Unlinks the candidates one by one. */
    method Sweep(candidates: set<Digest>) returns (removedBytes: nat)
      requires Valid() && disk.locked
      requires forall g :: g in candidates ==> g in disk.segments && Unreachable(disk, g, json)
      modifies this
      ensures Valid() && old(run) <= run
      ensures disk == old(disk).(segments := old(disk).segments - candidates)
      ensures StoredBytes(disk.segments) + removedBytes == StoredBytes(old(disk).segments)
    {
      hide Unreachable, Valid, StoredBytes;
      removedBytes := 0;
      var todo := candidates;
      assert disk.segments - (candidates - todo) == disk.segments;
      while todo != {}
        invariant Valid() && old(run) <= run && todo <= candidates && disk.locked
        invariant disk == old(disk).(segments := old(disk).segments - (candidates - todo))
        invariant forall g :: g in todo ==> Unreachable(disk, g, json)
        invariant StoredBytes(disk.segments) + removedBytes == StoredBytes(old(disk).segments)
        decreases todo
      {
        var g :| g in todo;
        var size := UnlinkCandidate(g);
        OneFewer(old(disk).segments, candidates, todo, g);
        removedBytes := removedBytes + size;
        todo := todo - {g};
      }
      assert candidates - todo == candidates;
    }

    /** Collects the segments no generation refers to, or reports them, or refuses while any generation is invalid. */
    method Collect(dryRun: bool) returns (r: Outcome<GcReport>)
      requires Valid()
      modifies this
      ensures Valid() && old(run) <= run
      ensures r.Err? <==> old(disk).locked
      ensures r.Err? ==> disk == old(disk)
      ensures r.Ok? ==> r.value.invalid == Invalid(old(disk), json) && r.value.blocked == (r.value.invalid != {})
      ensures r.Ok? ==> r.value.candidates == Garbage(old(disk), json)
      ensures r.Ok? ==> r.value.removed == if dryRun || r.value.blocked then {} else r.value.candidates
      ensures r.Ok? ==> r.value.retained == r.value.candidates - r.value.removed
      ensures r.Ok? ==> disk == old(disk).(segments := old(disk).segments - r.value.removed)
      ensures r.Ok? ==> StoredBytes(disk.segments) + r.value.removedBytes == StoredBytes(old(disk).segments)
      ensures forall id :: StillVerifies(old(disk), disk, id, json)
    {
      hide Unreachable, Valid, StoredBytes, Verifies, GenerationBytes, Referrers, Invalid;
      if disk.locked {
        return Err(LockHeld);
      }
      Do(MakeLock);
      SameGarbage(old(disk), disk, json);
      var counts, invalid := ReferenceScan();
      var candidates := set g | g in disk.segments && g !in counts;
      GarbageScanned(disk, counts, candidates, invalid, json);
      var removed, removedBytes := {}, 0;
      if !dryRun && invalid == {} {
        removedBytes := Sweep(candidates);
        removed := candidates;
      }
      assert disk.segments == old(disk).segments - removed;
      Do(RemoveLock);
      CollectKeepsGenerations(old(disk), disk, removed, json);
      r := Ok(GcReport(removed, removedBytes, candidates - removed, candidates, invalid, invalid != {}));
    }

    /** Deletes a generation that verifies and is not current. */
    method DeleteGeneration(id: Id) returns (r: Outcome<()>)
      requires Valid()
      modifies this
      ensures Valid() && old(run) <= run
      ensures r.Ok? <==> !old(disk).locked && old(disk).current != Some(id) && Verifies(old(disk), id, json)
      ensures r.Ok? ==> disk == old(disk).(generations := old(disk).generations - {id})
      ensures r.Err? ==> disk == old(disk)
    {
      hide ManifestOk;
      if disk.locked {
        return Err(LockHeld);
      }
      Do(MakeLock);
      VerifiesUnlocked(old(disk), disk, id, json);
      if disk.current == Some(id) {
        Do(RemoveLock);
        return Err(IsCurrent);
      }
      var info := Verify(id);
      if info.None? {
        Do(RemoveLock);
        return Err(VerificationFailed);
      }
      Do(UnlinkManifest(id));
      Do(RemoveGeneration(id));
      Do(RemoveLock);
      r := Ok(());
    }
  }

  lemma VerifiedRefs(d: Disk, id: Id, json: Json)
    requires Verifies(d, id, json)
    ensures forall i :: 0 <= i < |d.generations[id].manifest.segments| ==>
                          RefOk(d, d.generations[id].manifest, d.generations[id].manifest.segments[i])
  {
  }

  /** Verification does not look at the lock. */
  lemma VerifiesUnlocked(d: Disk, d': Disk, id: Id, json: Json)
    requires d'.segments == d.segments && d'.generations == d.generations
    ensures Verifies(d, id, json) <==> Verifies(d', id, json)
    ensures HasManifest(d, id) ==> GenerationBytes(d', id) == GenerationBytes(d, id)
  {
    if HasManifest(d, id) {
      RefBytesSame(d, d', d.generations[id].manifest.segments);
    }
  }

  /** A process opens the store after segment files have been damaged and reads a generation: it gets the bytes that
      were committed, or an error exactly when a segment of that generation has changed. */
  method ReadAfterDamage(before: ImmutableSegmentStore, found: Disk, id: Id) returns (r: Outcome<seq<seq<byte>>>)
    requires before.Valid() && SegmentsDamaged(before.disk, found) && Verifies(before.disk, id, before.json)
    ensures r.Ok? <==> SameSegments(before.disk, found, id)
    ensures r.Ok? ==> Flatten(r.value) == GenerationBytes(before.disk, id)
  {
    hide ManifestOk;
    var store := new ImmutableSegmentStore(found, before.segmentBytes, before.json);
    DamageIsSeen(before.disk, found, id, before.json);
    r := store.IterGenerationBytes(Some(id));
    if r.Ok? {
      GenerationStays(before.disk, found, id, before.json);
    }
  }
}
