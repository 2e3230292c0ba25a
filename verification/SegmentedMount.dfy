/** A mount committed as segments and materialised from them again. */
module SegmentedMount {
  import opened Bytes
  import opened SegmentDisk
  import opened SegmentStore
  import Archive
  import ArchiveIo

  /** Archives a mount and commits the image; the commit stands only if the mount did not change meanwhile. */
  method CommitMountSegmented(store: ImmutableSegmentStore, files: seq<Archive.File>, id: Id, createdNs: nat,
                              metadata: seq<byte>, changed: bool, env: Archive.Env)
    returns (r: Option<CommitReport>)
    requires store.Valid()
    modifies store
    ensures store.Valid() && old(store.run) <= store.run && store.segmentBytes > 0
    ensures r.Some? <==>
              && (forall i :: 0 <= i < |files| ==> Archive.Encodable(files[i]))
              && !old(store.disk).locked && store.json.metadataOk(metadata) && id !in old(store.disk).generations
              && HeaderOk(id, ManifestFor(id, old(store.disk).current, createdNs, store.segmentBytes,
                                          Archive.Image(files, env), metadata), store.json)
              && !changed
    ensures r.None? ==> store.disk.current == old(store.disk).current
    ensures r.Some? ==> store.disk.current == Some(id) && HasManifest(store.disk, id)
    ensures r.Some? ==> GenerationBytes(store.disk, id) == Archive.Image(files, env)
    ensures r.Some? && Archive.SafeMount(files, env) ==>
              Archive.Parse(GenerationBytes(store.disk, id), env) == Archive.Ok(Archive.MountOf(Archive.Canons(files)))
    ensures OthersVerify(old(store.disk), store.disk, id, store.json)
  {
    hide GenerationBytes, OthersVerify, Archive.Parse, Archive.SafeMount, Archive.Image, HeaderOk, ManifestFor;
    OthersVerifyThemselves(store.disk, id, store.json);
    var chunks := ArchiveIo.ArchiveChunks(files, env);
    if chunks.None? {
      return None;
    }
    Archive.ImageReadsBack(files, env);
    r := store.CommitMount(chunks.value, id, createdNs, metadata, changed);
  }

  lemma OthersVerifyThemselves(d: Disk, id: Id, json: Json)
    ensures OthersVerify(d, d, id, json)
  {
    hide Verifies;
    forall other ensures StillVerifies(d, d, other, json) {
      VerifiedHasManifest(d, other, json);
    }
  }

  /** Reads a generation back as a mount; None when it does not verify. */
  method MaterializeGeneration(store: ImmutableSegmentStore, id: Id, env: Archive.Env)
    returns (r: Option<Archive.Outcome>)
    ensures r.Some? <==> Verifies(store.disk, id, store.json)
    ensures r.Some? ==> r.value == Archive.Parse(GenerationBytes(store.disk, id), env)
  {
    hide GenerationBytes, Archive.Parse, ManifestOk;
    var chunks := store.IterGenerationBytes(Some(id));
    if chunks.Err? {
      return None;
    }
    var outcome := ArchiveIo.Materialize(chunks.value, env);
    r := Some(outcome);
  }

  /** A safe mount committed at one point of a run materialises as itself at every later point, crashes included,
      until its generation is deleted. */
  lemma MountSurvives(run: seq<Disk>, steps: seq<Step>, i: nat, j: nat, id: Id, files: seq<Archive.File>,
                      json: Json, env: Archive.Env)
    requires IsRun(run, steps, json) && i <= j < |run|
    requires Verifies(run[i], id, json) && GenerationBytes(run[i], id) == Archive.Image(files, env)
    requires forall k :: 0 <= k < |files| ==> Archive.Encodable(files[k])
    requires Archive.SafeMount(files, env)
    requires forall k :: i <= k < j ==> steps[k] != UnlinkManifest(id)
    ensures Verifies(run[j], id, json)
    ensures Archive.Parse(GenerationBytes(run[j], id), env) == Archive.Ok(Archive.MountOf(Archive.Canons(files)))
  {
    hide Archive.Parse, Archive.Image, Archive.SafeMount, Archive.Canons, Archive.MountOf, ManifestOk, IsRun;
    GenerationsSurvive(run, steps, i, j, id, json);
    Archive.ImageReadsBack(files, env);
  }
}
