/**
 The generation store's operations as methods that change the disk one atomic step at a time.

 A power failure is an explicit budget of steps: a cleanup stops as soon as it is spent, wherever it is.
 */
module GenerationStore {
  import opened Bytes
  import opened Segments
  import opened GenerationDisk
  import opened CleanupPlan
  import Probing

  /** The number of effects left before the power fails; None when it does not. */
  type Power = Option<nat>

  predicate Failed(p: Power) {
    p == Some(0)
  }

  function Spend(p: Power): Power {
    if p.Some? && p.value > 0 then Some(p.value - 1) else p
  }

  datatype StoreError =
    | InvalidMetadata | MetadataTooLarge | VerificationFailed | NoValidGeneration
    | TooManyCandidates | NotAcknowledged | InvalidKeep | PowerFailed

  datatype Outcome<+T> = Ok(value: T) | Err(error: StoreError)

  datatype CleanupReport = CleanupReport(planned: seq<Id>, removed: set<Id>, skipped: set<Id>)

  /** A generation's files are still somewhere on the disk. */
  predicate Present(d: Disk, id: Id) {
    id in d.generations || id in d.trash
  }

  predicate Descending(ids: seq<Id>) {
    forall i, j :: 0 <= i < j < |ids| ==> ids[i] > ids[j]
  }

  method Newest(ids: set<Id>) returns (m: Id)
    requires ids != {}
    ensures m in ids && forall x :: x in ids ==> x <= m
  {
    m :| m in ids;
    var todo := ids - {m};
    while todo != {}
      invariant todo <= ids && m in ids
      invariant forall x :: x in ids && x !in todo ==> x <= m
      decreases todo
    {
      var x :| x in todo;
      if x > m {
        m := x;
      }
      todo := todo - {x};
    }
  }

  /** Identifiers newest first. */
  method NewestFirst(ids: set<Id>) returns (r: seq<Id>)
    ensures Descending(r)
    ensures forall id :: id in r <==> id in ids
  {
    r := [];
    var todo := ids;
    while todo != {}
      invariant todo <= ids && Descending(r)
      invariant forall id :: id in ids <==> id in r || id in todo
      invariant forall i, x :: 0 <= i < |r| && x in todo ==> r[i] > x
      decreases todo
    {
      var m := Newest(todo);
      r := r + [m];
      todo := todo - {m};
    }
  }

  function Members(ids: seq<Id>): (r: set<Id>)
    ensures forall id :: id in r <==> id in ids
  {
    if ids == [] then {} else Members(ids[..|ids| - 1]) + {ids[|ids| - 1]}
  }

  lemma {:induction false} DescendingCount(ids: seq<Id>)
    requires Descending(ids)
    ensures |Members(ids)| == |ids|
  {
    if ids == [] {
    } else {
      var k := |ids| - 1;
      DescendingCount(ids[..k]);
      assert ids[k] !in ids[..k];
    }
  }

  lemma PrefixIsNewer(ids: seq<Id>, i: nat, id: Id)
    requires Descending(ids) && i < |ids|
    ensures id in ids[..i] <==> id in ids && id > ids[i]
  {
    if id in ids {
      var j :| 0 <= j < |ids| && ids[j] == id;
      if j < i {
        assert ids[..i][j] == id;
      }
    }
  }

  /** In the newest-first list of valid generations, position is the number of newer ones. */
  lemma RankIsPosition(d: Disk, ids: seq<Id>, i: nat, json: Json)
    requires Descending(ids) && i < |ids|
    requires forall id :: id in ids <==> Verifies(d, id, json)
    ensures |Newer(d, ids[i], json)| == i
  {
    hide Verifies, Descending, Members;
    DescendingCount(ids[..i]) by {
      DescendingPrefix(ids, i);
    }
    forall id ensures id in Members(ids[..i]) <==> id in Newer(d, ids[i], json) {
      PrefixIsNewer(ids, i, id);
      VerifiedIsThere(d, id, json);
    }
    assert Members(ids[..i]) == Newer(d, ids[i], json);
  }

  lemma DescendingPrefix(ids: seq<Id>, i: nat)
    requires Descending(ids) && i <= |ids|
    ensures Descending(ids[..i])
  {
  }

  lemma VerifiedIsThere(d: Disk, id: Id, json: Json)
    ensures Verifies(d, id, json) ==> id in d.generations
  {
  }

  lemma {:induction false} Listed(ids: set<Id>) returns (r: seq<Id>)
    ensures Descending(r) && forall id :: id in r <==> id in ids
    decreases ids
  {
    if ids == {} {
      r := [];
    } else {
      var m := Largest(ids);
      var rest := Listed(ids - {m});
      r := [m] + rest;
      forall k | 0 <= k < |rest| ensures rest[k] < m {
        assert rest[k] in rest;
      }
    }
  }

  lemma {:induction false} Largest(ids: set<Id>) returns (m: Id)
    requires ids != {}
    ensures m in ids && forall x :: x in ids ==> x <= m
    decreases ids
  {
    var first :| first in ids;
    m := first;
    if ids != {first} {
      var other := Largest(ids - {first});
      m := if other > first then other else first;
      assert forall x :: x in ids ==> x == first || x in ids - {first};
    }
  }

  /** What cleanup keeps, without counting: a set of `keep` valid generations, or all of them if there are fewer, each
      newer than every valid generation outside it; and the current one and the pinned ones. */
  lemma ProtectedExactly(d: Disk, keep: nat, json: Json) returns (newest: set<Id>)
    ensures newest <= Valid(d, json)
    ensures |newest| == if keep < |Valid(d, json)| then keep else |Valid(d, json)|
    ensures forall a: Id, b: Id :: a in newest && b in Valid(d, json) && b !in newest ==> a > b
    ensures forall id :: Protected(d, id, keep, json) <==> id in newest || d.current == Some(id) || id in d.pins
  {
    hide Verifies, Members;
    var ids := Listed(Valid(d, json));
    forall id ensures id in ids <==> Verifies(d, id, json) {
      VerifiedIsThere(d, id, json);
    }
    assert Members(ids) == Valid(d, json);
    DescendingCount(ids);
    var n := if keep < |ids| then keep else |ids|;
    newest := Members(ids[..n]);
    DescendingPrefix(ids, n);
    DescendingCount(ids[..n]);
    forall id ensures id in newest <==> Verifies(d, id, json) && |Newer(d, id, json)| < keep {
      if id in ids {
        var k :| 0 <= k < |ids| && ids[k] == id;
        RankIsPosition(d, ids, k, json);
        assert k < n ==> ids[..n][k] == id;
      }
    }
    forall a: Id, b: Id | a in newest && b in Valid(d, json) && b !in newest ensures a > b {
      var k :| 0 <= k < |ids[..n]| && ids[..n][k] == a;
      var l :| 0 <= l < |ids| && ids[l] == b;
      forall q | 0 <= q < n ensures ids[q] != b {
        assert ids[..n][q] in ids[..n];
      }
    }
  }

  /** What one uninterrupted resumption makes of a disk. */
  ghost function Resumed(d: Disk, json: Json): Disk {
    if d.plan.None? || |d.plan.value| > MAX_RECOVERY_CANDIDATES then d else Final(d, d.plan.value, json)
  }

  lemma ResumedStays(d: Disk, json: Json)
    ensures Resumed(Resumed(d, json), json) == Resumed(d, json)
  {
    hide DoomedIds;
  }

  /** A resumption leaves the generations an uninterrupted plan leaves exactly when the plan is within the recovery
      budget or has no generation left to remove. */
  lemma ResumingMatchesRunning(d: Disk, candidates: seq<Id>, json: Json)
    requires d.plan == Some(candidates)
    ensures Resumed(d, json).generations == Final(d, candidates, json).generations <==>
            || |candidates| <= MAX_RECOVERY_CANDIDATES
            || forall id :: Doomed(d, candidates, id, json) ==> id !in d.generations
  {
    hide Protected;
    var gone := DoomedIds(d, candidates, json);
    if exists id :: Doomed(d, candidates, id, json) && id in d.generations {
      var id :| Doomed(d, candidates, id, json) && id in d.generations;
      assert id in gone && id !in d.generations - gone;
    } else {
      assert d.generations - gone == d.generations;
    }
  }

  /** The valid generations a cleanup keeping `keep` may remove. */
  ghost function Prunable(d: Disk, keep: nat, json: Json): set<Id> {
    set id | id in d.generations && Verifies(d, id, json) && !Protected(d, id, keep, json)
  }

  ghost function Pruned(d: Disk, keep: nat, json: Json): Disk {
    var gone := Prunable(d, keep, json);
    if gone == {} then d else d.(generations := d.generations - gone, trash := d.trash - gone, plan := None)
  }

  lemma PlanChangesNothing(d: Disk, d': Disk, candidates: seq<Id>, json: Json)
    requires d' == d.(plan := Some(candidates))
    ensures Final(d', candidates, json) == Final(d, candidates, json)
    ensures forall id :: Protected(d', id, 1, json) <==> Protected(d, id, 1, json)
    ensures forall id :: Present(d', id) <==> Present(d, id)
    ensures Descending(candidates)
            && (forall id :: id in candidates ==> id in d.generations && !Protected(d, id, 1, json))
            ==> Untouched(d', candidates, json)
  {
    hide GenerationOk;
    forall id ensures Protected(d', id, 1, json) <==> Protected(d, id, 1, json) {
      SameGenerations(d, d', id, json);
    }
  }

  /** The plan a prune publishes dooms exactly what the prune is meant to remove. */
  lemma PrunedByPlan(d: Disk, candidates: seq<Id>, keep: nat, json: Json)
    requires keep >= 1
    requires forall id :: id in candidates <==> Verifies(d, id, json) && !Protected(d, id, keep, json)
    ensures candidates == [] <==> Prunable(d, keep, json) == {}
    ensures candidates == [] ==> Pruned(d, keep, json) == d
    ensures candidates != [] ==> Pruned(d, keep, json) == Final(d, candidates, json)
    ensures DoomedIds(d, candidates, json) == Prunable(d, keep, json)
    ensures forall id :: id in candidates <==> id in Prunable(d, keep, json)
    ensures forall id :: id in candidates ==> id in d.generations && !Protected(d, id, 1, json)
    ensures Descending(candidates) ==> |candidates| == |Prunable(d, keep, json)|
  {
    hide GenerationOk, Newer;
    if Descending(candidates) {
      DescendingCount(candidates);
      assert Members(candidates) == Prunable(d, keep, json);
    }
    forall id ensures id in candidates <==> id in Prunable(d, keep, json) {
    }
    if candidates != [] {
      assert candidates[0] in Prunable(d, keep, json);
    } else {
      assert Prunable(d, keep, json) == {};
    }
    assert DoomedIds(d, candidates, json) == Prunable(d, keep, json);
  }

  lemma RemovedArePrunable(d: Disk, d0: Disk, candidates: seq<Id>, removed: set<Id>, skipped: set<Id>, keep: nat,
                           json: Json)
    requires d == d0.(plan := d.plan) && Reported(d, candidates, removed, skipped, json)
    requires forall id :: id in candidates <==> id in Prunable(d0, keep, json)
    requires forall id :: id in candidates ==> id in d0.generations && !Protected(d, id, 1, json)
    ensures removed == Prunable(d0, keep, json)
  {
    hide Protected, Verifies;
    forall id ensures id in removed <==> id in Prunable(d0, keep, json) {
      assert id in candidates ==> Present(d, id);
    }
  }

  /** A prune that has published its plan and not finished it. */
  ghost predicate Interrupted(d0: Disk, d: Disk, keep: nat, json: Json) {
    && d.plan.Some?
    && Descending(d.plan.value)
    && |d.plan.value| == |Prunable(d0, keep, json)|
    && (forall id :: id in d.plan.value <==> id in Prunable(d0, keep, json))
    && (forall id :: id in d.plan.value ==> Doomed(d, d.plan.value, id, json))
    && Final(d, d.plan.value, json) == Pruned(d0, keep, json)
  }

  lemma NoneListed(d: Disk, ids: seq<Id>, json: Json)
    requires forall id :: id in ids <==> id in d.generations.Keys
    requires forall j :: 0 <= j < |ids| ==> !Verifies(d, ids[j], json)
    ensures forall id :: !Verifies(d, id, json)
  {
    hide GenerationOk;
    forall id ensures !Verifies(d, id, json) {
      if id in d.generations {
        assert id in ids;
      }
    }
  }

  lemma FirstValidIsNewest(d: Disk, ids: seq<Id>, i: nat, json: Json)
    requires Descending(ids) && i < |ids|
    requires forall id :: id in ids <==> id in d.generations.Keys
    requires Verifies(d, ids[i], json) && forall j :: 0 <= j < i ==> !Verifies(d, ids[j], json)
    ensures NewestValid(d, ids[i], json)
  {
    hide Verifies;
    forall id ensures id !in Newer(d, ids[i], json) {
      if id in ids && id > ids[i] {
        PrefixIsNewer(ids, i, id);
        var j :| 0 <= j < i && ids[j] == id;
      }
    }
    assert Newer(d, ids[i], json) == {};
  }

  lemma VerifiesSame(d: Disk, d': Disk, id: Id, json: Json)
    requires d'.generations == d.generations
    ensures Verifies(d', id, json) <==> Verifies(d, id, json)
  {
  }

  /** A plan no step of which has been taken: its candidates are distinct, on the disk and doomed. */
  ghost predicate Untouched(d: Disk, candidates: seq<Id>, json: Json) {
    && Descending(candidates)
    && forall id :: id in candidates ==> id in d.generations && Doomed(d, candidates, id, json)
  }

  ghost predicate SomeLeft(d: Disk, candidates: seq<Id>) {
    exists id :: id in candidates && id in d.generations
  }

  /** A plan has been carried out up to candidate i. */
  ghost predicate Progressed(d0: Disk, d: Disk, candidates: seq<Id>, i: nat, json: Json) {
    && i <= |candidates|
    && Final(d, candidates, json) == Final(d0, candidates, json) && d.plan == d0.plan
    && (forall x :: Protected(d, x, 1, json) <==> Protected(d0, x, 1, json))
    && (forall x :: Present(d, x) ==> Present(d0, x))
    && (forall x :: x !in candidates[..i] ==> SameWhereabouts(d0, d, x))
    && (forall x :: Doomed(d, candidates[..i], x, json) ==> !Present(d, x))
  }

  ghost predicate SameWhereabouts(d0: Disk, d: Disk, x: Id) {
    (Present(d, x) <==> Present(d0, x)) && (x in d.generations <==> x in d0.generations)
  }

  /** What a plan reports: the doomed that were there, and the protected. */
  ghost predicate Reported(d0: Disk, candidates: seq<Id>, removed: set<Id>, skipped: set<Id>, json: Json) {
    && (forall id :: id in removed <==> Doomed(d0, candidates, id, json) && Present(d0, id))
    && (forall id :: id in skipped <==> id in candidates && Protected(d0, id, 1, json))
  }

  lemma ProgressStart(d: Disk, candidates: seq<Id>, json: Json)
    ensures Progressed(d, d, candidates, 0, json) && Reported(d, candidates[..0], {}, {}, json)
  {
    hide Protected, Final;
  }

  lemma TakeNext(candidates: seq<Id>, i: nat)
    requires i < |candidates|
    ensures forall x :: x in candidates[..i + 1] <==> x in candidates[..i] || x == candidates[i]
  {
    assert candidates[..i + 1] == candidates[..i] + [candidates[i]];
  }

  lemma ProgressHere(d0: Disk, d: Disk, candidates: seq<Id>, i: nat, json: Json)
    requires Progressed(d0, d, candidates, i, json) && i < |candidates|
    ensures Protected(d, candidates[i], 1, json) <==> Protected(d0, candidates[i], 1, json)
    ensures Doomed(d, candidates, candidates[i], json) <==> !Protected(d, candidates[i], 1, json)
    ensures candidates[i] !in candidates[..i] ==> (Present(d, candidates[i]) <==> Present(d0, candidates[i]))
    ensures Untouched(d0, candidates, json) ==>
              candidates[i] in d.generations && !Protected(d, candidates[i], 1, json)
    ensures candidates[i] in candidates[..i] && !Protected(d, candidates[i], 1, json) ==> !Present(d, candidates[i])
  {
    hide Protected, Final;
    var id := candidates[i];
    assert id in candidates;
    if Untouched(d0, candidates, json) {
      assert id !in candidates[..i];
      assert SameWhereabouts(d0, d, id) && Doomed(d0, candidates, id, json);
    }
    if id in candidates[..i] && !Protected(d, id, 1, json) {
      assert Doomed(d, candidates[..i], id, json);
    }
    if id !in candidates[..i] {
      assert SameWhereabouts(d0, d, id);
    }
  }

  lemma ReportNext(d0: Disk, candidates: seq<Id>, i: nat, removed: set<Id>, skipped: set<Id>, json: Json)
    requires i < |candidates| && Reported(d0, candidates[..i], removed, skipped, json)
    ensures Protected(d0, candidates[i], 1, json) ==>
              Reported(d0, candidates[..i + 1], removed, skipped + {candidates[i]}, json)
    ensures !Protected(d0, candidates[i], 1, json) && Present(d0, candidates[i]) ==>
              Reported(d0, candidates[..i + 1], removed + {candidates[i]}, skipped, json)
    ensures !Protected(d0, candidates[i], 1, json)
            && (!Present(d0, candidates[i]) || candidates[i] in candidates[..i]) ==>
              Reported(d0, candidates[..i + 1], removed, skipped, json)
  {
    hide Protected;
    TakeNext(candidates, i);
  }

  lemma ProgressSkip(d0: Disk, d: Disk, candidates: seq<Id>, i: nat, json: Json)
    requires Progressed(d0, d, candidates, i, json) && i < |candidates|
    requires Protected(d, candidates[i], 1, json)
    ensures Progressed(d0, d, candidates, i + 1, json)
  {
    hide Protected, Final;
    TakeNext(candidates, i);
    forall x | Doomed(d, candidates[..i + 1], x, json) ensures !Present(d, x) {
      assert Doomed(d, candidates[..i], x, json);
    }
  }

  /** What removing one doomed candidate leaves as it was. */
  ghost predicate RemovedOnly(d: Disk, d': Disk, candidates: seq<Id>, id: Id, json: Json) {
    && Final(d', candidates, json) == Final(d, candidates, json) && d'.plan == d.plan
    && (forall x :: Protected(d', x, 1, json) <==> Protected(d, x, 1, json))
    && (forall x :: x != id ==> SameWhereabouts(d, d', x))
    && (Present(d', id) ==> Present(d, id))
  }

  lemma ProgressDelete(d0: Disk, d: Disk, d': Disk, candidates: seq<Id>, i: nat, json: Json)
    requires Progressed(d0, d, candidates, i, json) && i < |candidates|
    requires RemovedOnly(d, d', candidates, candidates[i], json) && !Present(d', candidates[i])
    ensures Progressed(d0, d', candidates, i + 1, json)
  {
    hide Protected, Final;
    TakeNext(candidates, i);
    forall x | x !in candidates[..i + 1] ensures SameWhereabouts(d0, d', x) {
      assert SameWhereabouts(d0, d, x) && SameWhereabouts(d, d', x);
    }
    forall x | Doomed(d', candidates[..i + 1], x, json) ensures !Present(d', x) {
      if x != candidates[i] {
        assert Doomed(d, candidates[..i], x, json) && SameWhereabouts(d, d', x);
      }
    }
    forall x | Present(d', x) ensures Present(d0, x) {
      assert x == candidates[i] || SameWhereabouts(d, d', x);
    }
  }

  lemma ProgressStops(d0: Disk, d: Disk, d': Disk, candidates: seq<Id>, i: nat, left: Power, json: Json)
    requires Progressed(d0, d, candidates, i, json) && i < |candidates|
    requires RemovedOnly(d, d', candidates, candidates[i], json)
    requires left.Some? && candidates[i] in d.generations ==>
               left.value < 2 && (candidates[i] in d'.generations <==> left.value == 0)
    ensures Final(d', candidates, json) == Final(d0, candidates, json) && d'.plan == d0.plan
    ensures forall x :: Protected(d', x, 1, json) <==> Protected(d0, x, 1, json)
    ensures left.Some? && Untouched(d0, candidates, json) ==>
              (SomeLeft(d', candidates) <==> left.value + 2 * i < 2 * |candidates| - 1)
  {
    hide Protected, Final;
    if left.Some? && Untouched(d0, candidates, json) {
      ProgressHere(d0, d, candidates, i, json);
      forall x | x in candidates[..i] ensures x !in d'.generations {
        Earlier(d0, d, candidates, i, x, json);
        assert SameWhereabouts(d, d', x);
      }
      if i + 1 < |candidates| {
        Later(d0, d, candidates, i, json);
        assert SameWhereabouts(d, d', candidates[i + 1]);
        assert candidates[i + 1] in candidates && candidates[i + 1] in d'.generations;
      } else {
        assert candidates == candidates[..i] + [candidates[i]];
      }
      assert candidates[i] in candidates;
    }
  }

  lemma Earlier(d0: Disk, d: Disk, candidates: seq<Id>, i: nat, x: Id, json: Json)
    requires Progressed(d0, d, candidates, i, json) && i < |candidates| && Untouched(d0, candidates, json)
    requires x in candidates[..i]
    ensures !Present(d, x) && x != candidates[i]
  {
    hide Protected, Final;
    assert x in candidates;
    assert Doomed(d0, candidates, x, json);
    assert Doomed(d, candidates[..i], x, json);
  }

  lemma Later(d0: Disk, d: Disk, candidates: seq<Id>, i: nat, json: Json)
    requires Progressed(d0, d, candidates, i, json) && i + 1 < |candidates| && Untouched(d0, candidates, json)
    ensures candidates[i + 1] in d.generations && candidates[i + 1] != candidates[i]
  {
    hide Protected, Final;
    assert candidates[i + 1] in candidates;
    assert candidates[i + 1] !in candidates[..i];
    assert SameWhereabouts(d0, d, candidates[i + 1]);
  }

  lemma ProgressEnd(d0: Disk, d: Disk, candidates: seq<Id>, json: Json)
    requires Progressed(d0, d, candidates, |candidates|, json)
    ensures Final(d, candidates, json) == Final(d0, candidates, json) && d.plan == d0.plan
    ensures forall x :: Protected(d, x, 1, json) <==> Protected(d0, x, 1, json)
    ensures Settled(d, candidates, json)
    ensures Untouched(d0, candidates, json) ==> !SomeLeft(d, candidates)
  {
    hide Protected, Final;
    assert candidates[..|candidates|] == candidates;
    if Untouched(d0, candidates, json) {
      forall id | id in candidates ensures id !in d.generations {
        assert Doomed(d0, candidates, id, json);
        assert Doomed(d, candidates, id, json);
      }
    }
  }

  lemma FreshExists(used: set<Id>)
    ensures exists id: Id :: id !in used
  {
    var below := Probing.Below(|used| + 1);
    if below <= used {
      Probing.SubsetSize(below, used);
    } else {
      var id :| id in below && id !in used;
    }
  }

  class ImmutableGenerationStore {
    const json: Json
    var disk: Disk
    ghost var run: seq<Disk>
    ghost var steps: seq<Step>

    ghost predicate Consistent()
      reads this
    {
      && IsRun(run, steps, json)
      && disk == run[|steps|]
      && TrashApart(disk)
    }

    /** Opens a store on whatever an earlier process left behind. */
    constructor (found: Disk, json: Json)
      requires TrashApart(found)
      ensures Consistent() && disk == found && this.json == json && run == [found] && steps == []
    {
      this.json, disk := json, found;
      run, steps := [found], [];
    }

    /** One atomic effect on the disk. */
    method Do(ghost e: Step, next: Disk)
      requires Consistent() && Allowed(disk, e, json) && next == After(disk, e, json)
      modifies this
      ensures Consistent() && disk == next
      ensures run == old(run) + [disk] && steps == old(steps) + [e]
    {
      hide Allowed, After;
      RunExtend(run, steps, e, json);
      StepKeepsTrashApart(disk, e, json);
      disk := next;
      run, steps := run + [next], steps + [e];
    }

    /** The generations that verify, newest first. */
    method ListValid() returns (ids: seq<Id>)
      ensures Descending(ids)
      ensures forall id :: id in ids <==> Verifies(disk, id, json)
    {
      hide GenerationOk;
      ids := NewestFirst(GenerationDisk.Valid(disk, json));
    }

    /** What a cleanup that keeps `keep` generations may not touch. */
    method ProtectedIds(keep: nat) returns (ids: set<Id>)
      ensures forall id :: id in ids <==> Protected(disk, id, keep, json)
    {
      hide Verifies, Newer;
      var valid := ListValid();
      var n := if keep < |valid| then keep else |valid|;
      var newest := Members(valid[..n]);
      forall id ensures id in newest <==> Verifies(disk, id, json) && |Newer(disk, id, json)| < keep {
        if Verifies(disk, id, json) {
          assert id in valid;
          var i :| 0 <= i < |valid| && valid[i] == id;
          RankIsPosition(disk, valid, i, json);
          assert i < n ==> valid[..n][i] == id;
          assert i >= n ==> id !in valid[..n];
        }
      }
      ids := newest + (if disk.current.Some? then {disk.current.value} else {}) + disk.pins;
    }

    method PinGeneration(id: Id) returns (ok: bool)
      requires Consistent()
      modifies this
      ensures Consistent() && old(run) <= run
      ensures ok <==> Verifies(old(disk), id, json)
      ensures ok ==> id in disk.generations && exists m, data :: Holds(disk.generations[id], id, m, data)
      ensures disk == if ok then old(disk).(pins := old(disk).pins + {id}) else old(disk)
    {
      hide Verifies, Holds;
      VerifiesExactly(disk, id, json);
      ok := Verifies(disk, id, json);
      if ok {
        if id in disk.pins {
          assert disk.pins + {id} == disk.pins;
        } else {
          Do(Pin(id), disk.(pins := disk.pins + {id}));
        }
      }
    }

    method UnpinGeneration(id: Id, acknowledged: bool) returns (ok: bool)
      requires Consistent()
      modifies this
      ensures Consistent() && old(run) <= run
      ensures ok <==> acknowledged || id !in old(disk).pins
      ensures disk == if ok then old(disk).(pins := old(disk).pins - {id}) else old(disk)
    {
      if id !in disk.pins {
        assert disk.pins - {id} == disk.pins;
        return true;
      }
      ok := acknowledged;
      if ok {
        Do(Unpin(id), disk.(pins := disk.pins - {id}));
      }
    }

    // ---- commit ----

    /** Writes the stream into a generation directory chunk by chunk. */
    method WriteData(id: Id, chunks: seq<seq<byte>>)
      requires Consistent()
      requires id in disk.generations && disk.generations[id] == Generation(None, NoMeta)
      modifies this
      ensures Consistent() && old(run) <= run
      ensures disk == Put(old(disk), id, Generation(Some(Flatten(chunks)), NoMeta))
    {
      Do(CreateData(id), Put(disk, id, Generation(Some([]), NoMeta)));
      for i := 0 to |chunks|
        invariant Consistent() && old(run) <= run
        invariant disk == Put(old(disk), id, Generation(Some(Flatten(chunks[..i])), NoMeta))
      {
        FlattenOne(chunks[..i], chunks[i]);
        assert chunks[..i] + [chunks[i]] == chunks[..i + 1];
        var more := Generation(Some(disk.generations[id].data.value + chunks[i]), NoMeta);
        PutAgain(old(disk), id, disk.generations[id], more);
        Do(AppendData(id, chunks[i]), Put(disk, id, more));
      }
      assert chunks[..|chunks|] == chunks;
    }

    /** An identifier that names nothing on the disk: any such, not necessarily the newest. */
    method NewGenerationId() returns (id: Id)
      ensures !Present(disk, id)
    {
      FreshExists(disk.generations.Keys + disk.trash);
      id :| id !in disk.generations.Keys + disk.trash;
    }

    /** Commits a stream as a new generation and promotes it once it verifies. */
    method CommitChunks(chunks: seq<seq<byte>>, createdNs: nat, application: seq<byte>)
      returns (r: Outcome<Meta>, id: Id)
      requires Consistent()
      modifies this
      ensures Consistent() && old(run) <= run
      ensures !Present(old(disk), id)
      ensures var data := Flatten(chunks);
              var m := Meta(id, old(disk).current, createdNs, |data|, Sha256(data), application);
              && (r.Ok? <==> json.applicationOk(application) && MetaOk(id, m, json))
              && (r.Ok? ==> r.value == m)
              && (r.Ok? ==> disk == Put(old(disk), id, Generation(Some(data), WholeMeta(m))).(current := Some(id)))
              && (r.Ok? ==> Verifies(disk, id, json) && Holds(disk.generations[id], id, m, data))
              && (r == Err(InvalidMetadata) <==> !json.applicationOk(application))
              && (r == Err(MetadataTooLarge) <==>
                    json.applicationOk(application) && json.encodedSize(m) > MAX_METADATA_BYTES)
              && (r.Err? ==> r.error in {InvalidMetadata, MetadataTooLarge, VerificationFailed})
              && (r == Err(InvalidMetadata) ==> disk == old(disk))
              && (r == Err(MetadataTooLarge) ==> disk == Put(old(disk), id, Generation(Some(data), NoMeta)))
              && (r == Err(VerificationFailed) ==> disk == Put(old(disk), id, Generation(Some(data), WholeMeta(m))))
    {
      hide Flatten, IsRun;
      var parent := disk.current;
      id := NewGenerationId();
      if !json.applicationOk(application) {
        return Err(InvalidMetadata), id;
      }
      var g0 := Generation(None, NoMeta);
      Do(MakeGeneration(id), Put(disk, id, g0));
      WriteData(id, chunks);
      var g1 := disk.generations[id];
      PutAgain(old(disk), id, g0, g1);
      var data := g1.data.value;
      var m := Meta(id, parent, createdNs, |data|, Sha256(data), application);
      if json.encodedSize(m) > MAX_METADATA_BYTES {
        return Err(MetadataTooLarge), id;
      }
      var g2, g3 := g1.(meta := TornMeta), g1.(meta := WholeMeta(m));
      Do(CreateMeta(id), Put(disk, id, g2));
      PutAgain(old(disk), id, g1, g2);
      Do(WriteMeta(id, m), Put(disk, id, g3));
      PutAgain(old(disk), id, g2, g3);
      if !Verifies(disk, id, json) {
        return Err(VerificationFailed), id;
      }
      Do(ReplaceCurrent(id), disk.(current := Some(id)));
      r := Ok(m);
    }

    // ---- cleanup ----

    /** Moves a doomed generation to the trash and empties the trash of it, from wherever an earlier attempt stopped. */
    method DeleteRestartable(id: Id, ghost candidates: seq<Id>, power: Power)
      returns (done: bool, removed: bool, left: Power)
      requires Consistent() && Doomed(disk, candidates, id, json)
      modifies this
      ensures Consistent() && old(run) <= run
      ensures RemovedOnly(old(disk), disk, candidates, id, json)
      ensures done ==> !Present(disk, id)
      ensures done ==> (removed <==> Present(old(disk), id))
      ensures power.None? ==> done && left.None?
      ensures power.Some? && id in old(disk).generations ==> (done <==> power.value >= 2)
      ensures power.Some? && id in old(disk).generations && done ==> left == Some(power.value - 2)
      ensures power.Some? && id in old(disk).generations ==> (id in disk.generations <==> power.value == 0)
      ensures power == Some(0) ==> disk == old(disk) && left == Some(0)
    {
      hide Protected, IsRun, Final;
      done, removed, left := false, false, power;
      if id in disk.generations {
        if Failed(left) {
          return;
        }
        StepKeepsFinal(disk, Quarantine(id), candidates, json);
        SameDoomed(disk, Quarantine(id), candidates, json);
        Do(Quarantine(id), disk.(generations := disk.generations - {id}, trash := disk.trash + {id}));
        left := Spend(left);
      }
      if id in disk.trash {
        if Failed(left) {
          return;
        }
        StepKeepsFinal(disk, EmptyTrash(id), candidates, json);
        SameDoomed(disk, EmptyTrash(id), candidates, json);
        Do(EmptyTrash(id), disk.(trash := disk.trash - {id}));
        left, removed := Spend(left), true;
      }
      done := true;
    }

    /** Carries out a plan, checking protection afresh before each deletion; stops where the power fails. */
    method ExecutePlan(candidates: seq<Id>, power: Power)
      returns (done: bool, removed: set<Id>, skipped: set<Id>, left: Power)
      requires Consistent()
      modifies this
      ensures Consistent() && old(run) <= run
      ensures done ==> disk == Final(old(disk), candidates, json)
      ensures !done ==> Final(disk, candidates, json) == Final(old(disk), candidates, json)
      ensures !done ==> disk.plan == old(disk).plan
      ensures !done ==> forall x :: Protected(disk, x, 1, json) <==> Protected(old(disk), x, 1, json)
      ensures done ==> Reported(old(disk), candidates, removed, skipped, json)
      ensures power.None? ==> done
      ensures power.Some? && Untouched(old(disk), candidates, json) && !done ==>
                (SomeLeft(disk, candidates) <==> power.value < 2 * |candidates| - 1)
      ensures power == Some(0) ==> !done && disk == old(disk)
    {
      hide Protected, IsRun, Final, Progressed, Reported, Untouched, SomeLeft;
      removed, skipped, left := {}, {}, power;
      ProgressStart(disk, candidates, json);
      for i := 0 to |candidates|
        invariant Consistent() && old(run) <= run && (power.None? ==> left.None?)
        invariant Progressed(old(disk), disk, candidates, i, json)
        invariant Reported(old(disk), candidates[..i], removed, skipped, json)
        invariant power.Some? && Untouched(old(disk), candidates, json) ==>
                    left.Some? && power.value == left.value + 2 * i
        invariant power == Some(0) ==> left == Some(0) && disk == old(disk)
      {
        var id := candidates[i];
        var protectedIds := ProtectedIds(1);
        ProgressHere(old(disk), disk, candidates, i, json);
        ReportNext(old(disk), candidates, i, removed, skipped, json);
        if id in protectedIds {
          ProgressSkip(old(disk), disk, candidates, i, json);
          skipped := skipped + {id};
        } else {
          ghost var before := disk;
          var ok, gone, rest := DeleteRestartable(id, candidates, left);
          if !ok {
            ProgressStops(old(disk), before, disk, candidates, i, left, json);
            return false, removed, skipped, rest;
          }
          ProgressDelete(old(disk), before, disk, candidates, i, json);
          left := rest;
          if gone {
            removed := removed + {id};
          }
        }
      }
      assert candidates[..|candidates|] == candidates;
      ProgressEnd(old(disk), disk, candidates, json);
      if Failed(left) {
        return false, removed, skipped, left;
      }
      SettledIsFinal(disk, candidates, json);
      Do(RemovePlan, disk.(plan := None));
      done, left := true, Spend(left);
    }

    /** Resumes a published plan. A plan longer than the recovery budget is refused. */
    method ResumeCleanup(power: Power) returns (r: Outcome<Option<CleanupReport>>)
      requires Consistent()
      modifies this
      ensures Consistent() && old(run) <= run
      ensures old(disk).plan.None? ==> r == Ok(None)
      ensures r.Ok? ==> disk == Resumed(old(disk), json)
      ensures r.Ok? && old(disk).plan.Some? ==>
                && r.value.Some? && r.value.value.planned == old(disk).plan.value
                && Reported(old(disk), r.value.value.planned, r.value.value.removed, r.value.value.skipped, json)
      ensures r == Err(TooManyCandidates) ==> disk == old(disk)
      ensures r == Err(TooManyCandidates) <==>
              old(disk).plan.Some? && |old(disk).plan.value| > MAX_RECOVERY_CANDIDATES
      ensures r.Err? && r.error != TooManyCandidates ==>
                && old(disk).plan.Some? && disk.plan == old(disk).plan
                && Final(disk, disk.plan.value, json) == Final(old(disk), disk.plan.value, json)
      ensures power.None? ==> r.Ok? || r == Err(TooManyCandidates)
    {
      hide Final, IsRun, Reported, Protected;
      if disk.plan.None? {
        return Ok(None);
      }
      var candidates := disk.plan.value;
      if |candidates| > MAX_RECOVERY_CANDIDATES {
        return Err(TooManyCandidates);
      }
      var done, removed, skipped, left := ExecutePlan(candidates, power);
      if !done {
        return Err(PowerFailed);
      }
      r := Ok(Some(CleanupReport(candidates, removed, skipped)));
    }

    /** Any number of resumptions, each cut short after any number of effects, and then one that is not. */
    method ResumeUntilDone(failures: seq<nat>)
      requires Consistent()
      modifies this
      ensures Consistent() && old(run) <= run
      ensures disk == Resumed(old(disk), json)
    {
      hide Final, IsRun;
      for i := 0 to |failures|
        invariant Consistent() && old(run) <= run
        invariant Resumed(disk, json) == Resumed(old(disk), json)
      {
        ghost var before := disk;
        var r := ResumeCleanup(Some(failures[i]));
        if r.Ok? {
          ResumedStays(before, json);
        }
      }
      var last := ResumeCleanup(None);
    }

    /** The valid generations a cleanup may remove, newest first. */
    method Candidates(keep: nat) returns (candidates: seq<Id>)
      ensures Descending(candidates)
      ensures forall id :: id in candidates <==> Verifies(disk, id, json) && !Protected(disk, id, keep, json)
    {
      hide Protected, Verifies;
      var valid := ListValid();
      var kept := ProtectedIds(keep);
      candidates := [];
      for i := 0 to |valid|
        invariant forall id :: id in candidates <==> id in valid[..i] && id !in kept
        invariant Descending(candidates)
      {
        forall k | 0 <= k < |candidates| ensures candidates[k] > valid[i] {
          assert candidates[k] in candidates;
        }
        if valid[i] !in kept {
          candidates := candidates + [valid[i]];
        }
      }
      assert valid[..|valid|] == valid;
    }

    /** Plans and removes every valid generation a cleanup keeping `keep` does not protect. */
    method Prune(keep: nat, acknowledged: bool, power: Power) returns (r: Outcome<CleanupReport>)
      requires Consistent()
      modifies this
      ensures Consistent() && old(run) <= run
      ensures r == Err(InvalidKeep) <==> keep < 1
      ensures r == Err(NotAcknowledged) <==> keep >= 1 && Prunable(old(disk), keep, json) != {} && !acknowledged
      ensures r.Err? ==> r.error in {InvalidKeep, NotAcknowledged, PowerFailed}
      ensures r.Err? && r.error in {InvalidKeep, NotAcknowledged} ==> disk == old(disk)
      ensures r.Ok? ==> disk == Pruned(old(disk), keep, json) && r.value.removed == Prunable(old(disk), keep, json)
      ensures r == Err(PowerFailed) && power == Some(0) ==> disk == old(disk)
      ensures r == Err(PowerFailed) && power != Some(0) ==> Interrupted(old(disk), disk, keep, json)
      ensures r == Err(PowerFailed) && power.Some? && power != Some(0) ==>
                (SomeLeft(disk, disk.plan.value) <==> power.value < 2 * |Prunable(old(disk), keep, json)|)
      ensures r == Err(PowerFailed) && power == Some(1) ==> disk == old(disk).(plan := disk.plan)
      ensures power == Some(1) && keep >= 1 && acknowledged && Prunable(old(disk), keep, json) != {} ==>
                r == Err(PowerFailed)
      ensures power.None? ==> r != Err(PowerFailed)
    {
      hide Final, IsRun, Protected, Verifies, Pruned, Prunable, Untouched, Reported, SomeLeft, Descending;
      if keep < 1 {
        return Err(InvalidKeep);
      }
      var candidates := Candidates(keep);
      PrunedByPlan(disk, candidates, keep, json);
      if candidates == [] {
        return Ok(CleanupReport([], {}, {}));
      }
      if !acknowledged {
        return Err(NotAcknowledged);
      }
      if Failed(power) {
        return Err(PowerFailed);
      }
      Do(PublishPlan(candidates), disk.(plan := Some(candidates)));
      PlanChangesNothing(old(disk), disk, candidates, json);
      ghost var published := disk;
      var done, removed, skipped, left := ExecutePlan(candidates, Spend(power));
      if !done {
        return Err(PowerFailed);
      }
      RemovedArePrunable(published, old(disk), candidates, removed, skipped, keep, json);
      r := Ok(CleanupReport(candidates, removed, skipped));
    }

    /** A prune cut short after n effects and then resumed for as long as it takes leaves the generations of an
        uninterrupted prune exactly when it removes at most 4096 of them or had already taken each of them out. */
    method PruneThenResume(keep: nat, n: nat, failures: seq<nat>) returns (r: Outcome<CleanupReport>)
      requires Consistent()
      modifies this
      ensures Consistent() && old(run) <= run
      ensures n == 1 && keep >= 1 && Prunable(old(disk), keep, json) != {} ==> r == Err(PowerFailed)
      ensures r == Err(PowerFailed) && n > 0 ==>
                (disk.generations == Pruned(old(disk), keep, json).generations <==>
                 || |Prunable(old(disk), keep, json)| <= MAX_RECOVERY_CANDIDATES
                 || n >= 2 * |Prunable(old(disk), keep, json)|)
      ensures r == Err(PowerFailed) && n == 1 && |Prunable(old(disk), keep, json)| > MAX_RECOVERY_CANDIDATES ==>
                disk.generations == old(disk).generations
    {
      hide Final, IsRun, Protected, Verifies, Pruned, Prunable;
      r := Prune(keep, true, Some(n));
      ghost var stopped := disk;
      ResumeUntilDone(failures);
      if r == Err(PowerFailed) && n > 0 {
        ResumingMatchesRunning(stopped, stopped.plan.value, json);
      }
    }

    /** Picks the current generation if it verifies and the newest valid one otherwise, on any disk at all. */
    method Recover(repair: bool) returns (r: Outcome<Id>)
      requires Consistent()
      modifies this
      ensures Consistent() && old(run) <= run
      ensures var sound := old(disk).current.Some? && Verifies(old(disk), old(disk).current.value, json);
              && (sound ==> r == Ok(old(disk).current.value) && disk == old(disk))
              && (!sound ==> (r == Err(TooManyCandidates) <==> |old(disk).generations| > MAX_RECOVERY_CANDIDATES))
              && (!sound && r.Ok? ==> NewestValid(old(disk), r.value, json))
              && (r == Err(NoValidGeneration) ==> forall id :: !Verifies(old(disk), id, json))
      ensures r.Err? ==> r.error in {TooManyCandidates, NoValidGeneration} && disk == old(disk)
      ensures r.Ok? && repair ==> disk == old(disk).(current := Some(r.value)) && CurrentOk(disk, json)
      ensures r.Ok? && !repair ==> disk == old(disk)
      ensures r.Ok? ==> && r.value in disk.generations
                        && exists m, data :: Holds(disk.generations[r.value], r.value, m, data)
    {
      hide Verifies, IsRun, Holds;
      if disk.current.Some? {
        VerifiesExactly(disk, disk.current.value, json);
      }
      if disk.current.Some? && Verifies(disk, disk.current.value, json) {
        return Ok(disk.current.value);
      }
      if |disk.generations| > MAX_RECOVERY_CANDIDATES {
        return Err(TooManyCandidates);
      }
      var ids := NewestFirst(disk.generations.Keys);
      var i := 0;
      while i < |ids| && !Verifies(disk, ids[i], json)
        invariant i <= |ids| && forall j :: 0 <= j < i ==> !Verifies(disk, ids[j], json)
      {
        i := i + 1;
      }
      if i == |ids| {
        NoneListed(disk, ids, json);
        return Err(NoValidGeneration);
      }
      FirstValidIsNewest(disk, ids, i, json);
      VerifiesExactly(disk, ids[i], json);
      VerifiesSame(disk, disk.(current := Some(ids[i])), ids[i], json);
      r := Ok(ids[i]);
      if repair {
        Do(ReplaceCurrent(ids[i]), disk.(current := Some(ids[i])));
      }
    }
  }

  lemma PutAgain(d: Disk, id: Id, g: Generation, g': Generation)
    ensures Put(Put(d, id, g), id, g') == Put(d, id, g')
  {
  }

  /** The generation's data file is as the earlier process left it. */
  ghost predicate Undamaged(d: Disk, d': Disk, id: Id) {
    id in d.generations && id in d'.generations && d'.generations[id].data == d.generations[id].data
  }

  /** A process opens the store after data files have been damaged: it mounts the generation named by CURRENT if that
      one is undamaged, otherwise the newest undamaged one, and never a generation whose bytes have changed. */
  method RecoverAfterDamage(before: ImmutableGenerationStore, found: Disk, repair: bool)
    returns (store: ImmutableGenerationStore, r: Outcome<Id>)
    requires before.Consistent() && DataDamaged(before.disk, found)
    requires forall id :: id in before.disk.generations ==> Verifies(before.disk, id, before.json)
    ensures fresh(store) && store.Consistent() && old(before.disk) == before.disk
    ensures r.Ok? ==> Undamaged(before.disk, found, r.value)
    ensures var current := before.disk.current;
            var sound := current.Some? && Undamaged(before.disk, found, current.value);
            && (sound ==> r == Ok(current.value))
            && (!sound && r.Ok? ==> forall id: Id :: Undamaged(before.disk, found, id) ==> id <= r.value)
            && (!sound ==> (r == Err(TooManyCandidates) <==> |found.generations| > MAX_RECOVERY_CANDIDATES))
            && (r == Err(NoValidGeneration) ==> forall id :: !Undamaged(before.disk, found, id))
    ensures r.Err? ==> r.error in {TooManyCandidates, NoValidGeneration}
    ensures r.Ok? && repair ==> store.disk.current == Some(r.value)
  {
    hide Verifies, IsRun, Holds;
    store := new ImmutableGenerationStore(found, before.json);
    forall id
      ensures Verifies(found, id, before.json) <==> Undamaged(before.disk, found, id)
    {
      VerifiedIsThere(found, id, before.json);
      if id in before.disk.generations {
        DamageIsSeen(before.disk, found, id, before.json);
      }
    }
    r := store.Recover(repair);
    if r.Ok? && NewestValid(found, r.value, before.json) {
      forall id: Id | Undamaged(before.disk, found, id)
        ensures id <= r.value
      {
        NewestIsLargest(found, r.value, id, before.json);
      }
    }
  }

  /** A disk of 4098 valid generations, none of them current or pinned. */
  ghost predicate ManyGenerations(d: Disk) {
    && d.pins == {} && d.trash == {} && d.plan == None && d.current == None
    && forall id: Id :: id in d.generations <==> id <= 4097
  }

  lemma ManyPrunable(d: Disk, json: Json)
    requires ManyGenerations(d) && forall id :: id in d.generations ==> Verifies(d, id, json)
    ensures |Prunable(d, 1, json)| == 4097 && 0 in Prunable(d, 1, json)
    ensures 0 !in Pruned(d, 1, json).generations
  {
    hide GenerationOk;
    forall id: Id ensures id in Prunable(d, 1, json) <==> id < 4097 {
      if id < 4097 {
        assert id + 1 in Newer(d, id, json);
      } else if id == 4097 {
        assert Newer(d, id, json) == {};
      }
    }
    assert Prunable(d, 1, json) == Probing.Below(4097);
  }

  /** An input on which resuming fails: a prune of 4098 generations interrupted right after it published its plan is
      never finished, and generation 0 stays for ever. */
  method InterruptedPruneIsStuck(failures: seq<nat>) returns (store: ImmutableGenerationStore)
    ensures fresh(store) && store.Consistent() && ManyGenerations(store.run[0])
    ensures 0 in store.disk.generations && 0 !in Pruned(store.run[0], 1, store.json).generations
  {
    var json := Json(_ => true, _ => true, _ => 0);
    var generations := map id: Id | 0 <= id <= 4097 ::
      Generation(Some([]), WholeMeta(Meta(id, None, 0, 0, Sha256([]), [])));
    var start := Disk(generations, {}, {}, None, None);
    store := new ImmutableGenerationStore(start, json);
    forall id | id in start.generations ensures Verifies(start, id, json) {
      assert start.generations[id].meta.meta == Meta(id, None, 0, 0, Sha256([]), []);
    }
    ManyPrunable(start, json);
    var r := store.PruneThenResume(1, 1, failures);
  }
}
