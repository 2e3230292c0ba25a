/**
 The generation store's directory tree as a state machine of atomic file-system effects.

 A crash is a run that stops after any step. Identifiers are numbers in the order of their fixed-width names.
 SHA-256 is an injective constructor; private temporary files are not part of the state.
 */
module GenerationDisk {
  import opened Bytes

  const MAX_METADATA_BYTES: nat := 1024 * 1024
  const MAX_RECOVERY_CANDIDATES: nat := 4096

  type Id = nat

  datatype Digest = Sha256(preimage: seq<byte>)

  datatype Meta = Meta(generation: Id, parent: Option<Id>, createdNs: nat, size: nat, sha256: Digest,
                       application: seq<byte>)

  /** The integrity file is not there yet, partly written, or whole. */
  datatype MetaFile = NoMeta | TornMeta | WholeMeta(meta: Meta)

  datatype Generation = Generation(data: Option<seq<byte>>, meta: MetaFile)

  /** The JSON side of metadata: node budgets, and the size of the canonical text. */
  datatype Json = Json(applicationOk: seq<byte> -> bool, treeOk: Meta -> bool, encodedSize: Meta -> nat)

  datatype Disk = Disk(generations: map<Id, Generation>, pins: set<Id>, trash: set<Id>, plan: Option<seq<Id>>,
                       current: Option<Id>)

  // ---- what it means for a generation to verify ----

  predicate MetaOk(id: Id, m: Meta, json: Json) {
    json.encodedSize(m) <= MAX_METADATA_BYTES && json.treeOk(m) && m.generation == id
  }

  predicate GenerationOk(id: Id, g: Generation, json: Json) {
    && g.data.Some? && g.meta.WholeMeta?
    && MetaOk(id, g.meta.meta, json)
    && |g.data.value| == g.meta.meta.size
    && Sha256(g.data.value) == g.meta.meta.sha256
  }

  predicate Verifies(d: Disk, id: Id, json: Json) {
    id in d.generations && GenerationOk(id, d.generations[id], json)
  }

  /** The generation holds `data`, and its metadata `m` was written for that generation and those very bytes. */
  ghost predicate Holds(g: Generation, id: Id, m: Meta, data: seq<byte>) {
    && g == Generation(Some(data), WholeMeta(m))
    && m.generation == id && m.size == |data| && m.sha256 == Sha256(data)
  }

  /** What verification guarantees: whole metadata within the budgets, written for exactly the bytes that are there. */
  lemma VerifiesExactly(d: Disk, id: Id, json: Json)
    ensures Verifies(d, id, json) <==>
            && id in d.generations
            && exists m, data :: Holds(d.generations[id], id, m, data)
                                 && json.treeOk(m) && json.encodedSize(m) <= 1_048_576
  {
    if Verifies(d, id, json) {
      var g := d.generations[id];
      assert Holds(g, id, g.meta.meta, g.data.value);
    }
  }

  /** Something outside the store has changed data files, and nothing else. */
  ghost predicate DataDamaged(d: Disk, d': Disk) {
    && d'.generations.Keys == d.generations.Keys
    && (forall id :: id in d.generations ==> d'.generations[id].meta == d.generations[id].meta)
    && d' == d.(generations := d'.generations)
  }

  /** Any change to the data file of a verifying generation is noticed. */
  lemma DamageIsSeen(d: Disk, d': Disk, id: Id, json: Json)
    requires DataDamaged(d, d') && Verifies(d, id, json)
    ensures Verifies(d', id, json) <==> d'.generations[id].data == d.generations[id].data
  {
    if Verifies(d', id, json) {
      assert Sha256(d'.generations[id].data.value) == Sha256(d.generations[id].data.value);
    }
  }

  function Valid(d: Disk, json: Json): set<Id> {
    set id | id in d.generations && Verifies(d, id, json)
  }

  function Newer(d: Disk, id: Id, json: Json): set<Id> {
    set other | other in d.generations && Verifies(d, other, json) && other > id
  }

  /** What a cleanup that keeps `keep` generations may not touch: those newest ones, the current one and the pinned. */
  ghost predicate Protected(d: Disk, id: Id, keep: nat, json: Json) {
    || (Verifies(d, id, json) && |Newer(d, id, json)| < keep)
    || d.current == Some(id)
    || id in d.pins
  }

  // ---- steps ----

  datatype Step =
    | MakeGeneration(id: Id)
    | CreateData(id: Id)
    | AppendData(id: Id, chunk: seq<byte>)
    | CreateMeta(id: Id)
    | WriteMeta(id: Id, meta: Meta)
    | ReplaceCurrent(id: Id)
    | Pin(id: Id)
    | Unpin(id: Id)
    | PublishPlan(candidates: seq<Id>)
    | Quarantine(id: Id)
    | EmptyTrash(id: Id)
    | RemovePlan

  predicate Unfinished(d: Disk, id: Id) {
    id in d.generations && d.generations[id].meta == NoMeta
  }

  ghost predicate Allowed(d: Disk, e: Step, json: Json) {
    match e
    case MakeGeneration(id) => id !in d.generations && id !in d.trash
    case CreateData(id) => Unfinished(d, id) && d.generations[id].data.None?
    case AppendData(id, chunk) => Unfinished(d, id) && d.generations[id].data.Some?
    case CreateMeta(id) => Unfinished(d, id)
    case WriteMeta(id, m) => id in d.generations && d.generations[id].meta == TornMeta
    case ReplaceCurrent(id) => Verifies(d, id, json)
    case Pin(id) => Verifies(d, id, json)
    case Unpin(id) => true
    case PublishPlan(candidates) => true
    case Quarantine(id) => id in d.generations && id !in d.trash && !Protected(d, id, 1, json)
    case EmptyTrash(id) => id in d.trash
    case RemovePlan => true
  }

  function Put(d: Disk, id: Id, g: Generation): Disk {
    d.(generations := d.generations[id := g])
  }

  ghost function After(d: Disk, e: Step, json: Json): Disk
    requires Allowed(d, e, json)
  {
    match e
    case MakeGeneration(id) => Put(d, id, Generation(None, NoMeta))
    case CreateData(id) => Put(d, id, d.generations[id].(data := Some([])))
    case AppendData(id, chunk) => Put(d, id, d.generations[id].(data := Some(d.generations[id].data.value + chunk)))
    case CreateMeta(id) => Put(d, id, d.generations[id].(meta := TornMeta))
    case WriteMeta(id, m) => Put(d, id, d.generations[id].(meta := WholeMeta(m)))
    case ReplaceCurrent(id) => d.(current := Some(id))
    case Pin(id) => d.(pins := d.pins + {id})
    case Unpin(id) => d.(pins := d.pins - {id})
    case PublishPlan(candidates) => d.(plan := Some(candidates))
    case Quarantine(id) => d.(generations := d.generations - {id}, trash := d.trash + {id})
    case EmptyTrash(id) => d.(trash := d.trash - {id})
    case RemovePlan => d.(plan := None)
  }

  // ---- what every step keeps ----

  ghost predicate CurrentOk(d: Disk, json: Json) {
    d.current.Some? ==> Verifies(d, d.current.value, json)
  }

  /** No identifier is both a generation and waiting in the trash: identifiers are not reused. */
  ghost predicate TrashApart(d: Disk) {
    forall id :: id in d.trash ==> id !in d.generations
  }

  ghost predicate PinsOk(d: Disk, json: Json) {
    forall id :: id in d.pins ==> Verifies(d, id, json)
  }

  /** A generation that verifies is only ever taken away by a quarantine, and never while it is protected. */
  lemma StepKeepsGeneration(d: Disk, e: Step, id: Id, json: Json)
    requires Allowed(d, e, json) && Verifies(d, id, json)
    requires Protected(d, id, 1, json) || e != Quarantine(id)
    ensures Verifies(After(d, e, json), id, json)
    ensures After(d, e, json).generations[id] == d.generations[id]
  {
  }

  lemma StepKeepsInvariants(d: Disk, e: Step, json: Json)
    requires Allowed(d, e, json) && CurrentOk(d, json)
    ensures CurrentOk(After(d, e, json), json)
    ensures d.current.Some? ==> After(d, e, json).current.Some?
    ensures PinsOk(d, json) ==> PinsOk(After(d, e, json), json)
  {
    hide GenerationOk, Newer;
    if d.current.Some? {
      StepKeepsGeneration(d, e, d.current.value, json);
    }
    if PinsOk(d, json) {
      var d' := After(d, e, json);
      forall id | id in d'.pins ensures Verifies(d', id, json) {
        if id in d.pins {
          StepKeepsGeneration(d, e, id, json);
        }
      }
    }
  }

  lemma StepKeepsTrashApart(d: Disk, e: Step, json: Json)
    requires Allowed(d, e, json) && TrashApart(d)
    ensures TrashApart(After(d, e, json))
  {
    hide Verifies, Protected;
  }

  /** The newest valid generation: the one cleanup always keeps, whatever the pointer and the pins say. */
  ghost predicate NewestValid(d: Disk, id: Id, json: Json) {
    Verifies(d, id, json) && Newer(d, id, json) == {}
  }

  lemma NewestIsLargest(d: Disk, newest: Id, id: Id, json: Json)
    requires NewestValid(d, newest, json) && Verifies(d, id, json)
    ensures id <= newest
  {
    assert id !in Newer(d, newest, json);
  }

  lemma NewestIsProtected(d: Disk, id: Id, json: Json)
    requires NewestValid(d, id, json)
    ensures Protected(d, id, 1, json)
  {
  }

  // ---- runs ----

  ghost predicate StepAt(run: seq<Disk>, steps: seq<Step>, k: nat, json: Json)
    requires |run| == |steps| + 1 && k < |steps|
  {
    Allowed(run[k], steps[k], json) && run[k + 1] == After(run[k], steps[k], json)
  }

  ghost predicate IsRun(run: seq<Disk>, steps: seq<Step>, json: Json) {
    && |run| == |steps| + 1
    && forall k :: 0 <= k < |steps| ==> StepAt(run, steps, k, json)
  }

  lemma RunExtend(run: seq<Disk>, steps: seq<Step>, e: Step, json: Json)
    requires IsRun(run, steps, json) && Allowed(run[|steps|], e, json)
    ensures IsRun(run + [After(run[|steps|], e, json)], steps + [e], json)
  {
    hide Allowed, After;
    var run', steps' := run + [After(run[|steps|], e, json)], steps + [e];
    forall k | 0 <= k < |steps'| ensures StepAt(run', steps', k, json) {
      assert k < |steps| ==> StepAt(run, steps, k, json);
    }
  }

  /** Once a generation has been promoted, CURRENT names a generation that verifies wherever the run stops. */
  lemma {:induction false} CurrentAlwaysVerifies(run: seq<Disk>, steps: seq<Step>, i: nat, j: nat, json: Json)
    requires IsRun(run, steps, json) && i <= j < |run|
    requires CurrentOk(run[i], json)
    ensures CurrentOk(run[j], json)
    ensures run[i].current.Some? ==> run[j].current.Some? && Verifies(run[j], run[j].current.value, json)
    ensures PinsOk(run[i], json) ==> PinsOk(run[j], json)
    decreases j - i
  {
    hide Allowed, After, Verifies, PinsOk;
    if i == j {
    } else {
      assert StepAt(run, steps, i, json);
      StepKeepsInvariants(run[i], steps[i], json);
      CurrentAlwaysVerifies(run, steps, i + 1, j, json);
    }
  }

  /** Through any stretch of a run in which it stays current, pinned or newest, a generation keeps its contents. */
  lemma {:induction false} ProtectedSurvives(run: seq<Disk>, steps: seq<Step>, i: nat, j: nat, id: Id, json: Json)
    requires IsRun(run, steps, json) && i <= j < |run|
    requires Verifies(run[i], id, json)
    requires forall k :: i <= k < j ==> Protected(run[k], id, 1, json)
    ensures Verifies(run[j], id, json) && run[j].generations[id] == run[i].generations[id]
    decreases j - i
  {
    hide Allowed, After, GenerationOk, Protected;
    if i == j {
    } else {
      assert StepAt(run, steps, i, json);
      StepKeepsGeneration(run[i], steps[i], id, json);
      ProtectedSurvives(run, steps, i + 1, j, id, json);
    }
  }

  /** Above any valid generation there is a newest one. */
  lemma {:induction false} NewestAbove(d: Disk, id: Id, json: Json) returns (newest: Id)
    requires Verifies(d, id, json)
    ensures NewestValid(d, newest, json) && newest >= id
    decreases Newer(d, id, json)
  {
    hide GenerationOk;
    if Newer(d, id, json) == {} {
      newest := id;
    } else {
      var next :| next in Newer(d, id, json);
      assert next !in Newer(d, next, json);
      assert Newer(d, next, json) < Newer(d, id, json);
      newest := NewestAbove(d, next, json);
    }
  }

  /** Whatever is committed, pinned or cleaned up, and wherever the run crashes, the newest valid generation is never
      lost: at every later state there is one at least as new. */
  lemma {:induction false} NewestNeverRetreats(run: seq<Disk>, steps: seq<Step>, i: nat, j: nat, id: Id, json: Json)
    returns (newest: Id)
    requires IsRun(run, steps, json) && i <= j < |run|
    requires NewestValid(run[i], id, json)
    ensures NewestValid(run[j], newest, json) && newest >= id
    decreases j - i
  {
    hide Allowed, After, GenerationOk, Protected;
    if i == j {
      newest := id;
    } else {
      assert StepAt(run, steps, i, json);
      NewestIsProtected(run[i], id, json);
      StepKeepsGeneration(run[i], steps[i], id, json);
      var next := NewestAbove(run[i + 1], id, json);
      newest := NewestNeverRetreats(run, steps, i + 1, j, next, json);
    }
  }
}
