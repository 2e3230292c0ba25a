/** Why a published cleanup plan ends the same way however often it is interrupted. */
module CleanupPlan {
  import opened Bytes
  import opened GenerationDisk

  /** The candidates a plan really removes: those not protected once everything but the newest may go. */
  ghost predicate Doomed(d: Disk, candidates: seq<Id>, id: Id, json: Json) {
    id in candidates && !Protected(d, id, 1, json)
  }

  ghost function DoomedIds(d: Disk, candidates: seq<Id>, json: Json): set<Id> {
    set id | id in candidates && Doomed(d, candidates, id, json)
  }

  /** What is left when the plan has run to its end. */
  ghost function Final(d: Disk, candidates: seq<Id>, json: Json): Disk {
    var gone := DoomedIds(d, candidates, json);
    d.(generations := d.generations - gone, trash := d.trash - gone, plan := None)
  }

  /** The steps that carry out a plan. */
  ghost predicate CleanupStep(d: Disk, e: Step, candidates: seq<Id>, json: Json) {
    && Allowed(d, e, json)
    && (e.Quarantine? || e.EmptyTrash?)
    && Doomed(d, candidates, e.id, json)
  }

  lemma NewerAfter(d: Disk, e: Step, x: Id, json: Json)
    requires Allowed(d, e, json) && e.Quarantine?
    ensures Newer(After(d, e, json), x, json) == Newer(d, x, json) - {e.id}
  {
    hide GenerationOk, Protected;
  }

  /** Taking an unprotected generation away protects and exposes nothing else. */
  lemma ProtectionUnmoved(d: Disk, e: Step, x: Id, json: Json)
    requires Allowed(d, e, json) && (e.Quarantine? || e.EmptyTrash?)
    requires !Protected(d, e.id, 1, json)
    ensures Protected(After(d, e, json), x, 1, json) <==> Protected(d, x, 1, json)
  {
    hide GenerationOk, Newer;
    var d' := After(d, e, json);
    NoneNewer(d, e, x, json);
    assert Verifies(d', x, json) <==> Verifies(d, x, json) && e != Quarantine(x);
  }

  lemma NoneNewer(d: Disk, e: Step, x: Id, json: Json)
    requires Allowed(d, e, json) && (e.Quarantine? || e.EmptyTrash?)
    requires !Protected(d, e.id, 1, json)
    ensures |Newer(After(d, e, json), x, json)| < 1 <==> |Newer(d, x, json)| < 1
  {
    hide Verifies;
    var was, now := Newer(d, x, json), Newer(After(d, e, json), x, json);
    if e.EmptyTrash? {
      SameGenerations(d, After(d, e, json), x, json);
    } else {
      NewerAfter(d, e, x, json);
      if e.id in was {
        NewerStill(d, e.id, x, json);
        var y :| y in Newer(d, e.id, json) && y in was;
        assert y in now;
      } else {
        assert now == was;
      }
    }
  }

  lemma SameGenerations(d: Disk, d': Disk, x: Id, json: Json)
    requires d'.generations == d.generations
    ensures Newer(d', x, json) == Newer(d, x, json)
  {
  }

  lemma NewerStill(d: Disk, id: Id, x: Id, json: Json)
    requires id in Newer(d, x, json) && !Protected(d, id, 1, json)
    ensures exists y :: y in Newer(d, id, json) && y in Newer(d, x, json)
  {
    hide GenerationOk;
    assert Newer(d, id, json) != {};
    var y :| y in Newer(d, id, json);
  }

  lemma SameDoomed(d: Disk, e: Step, candidates: seq<Id>, json: Json)
    requires CleanupStep(d, e, candidates, json)
    ensures DoomedIds(After(d, e, json), candidates, json) == DoomedIds(d, candidates, json)
    ensures forall x :: Protected(After(d, e, json), x, 1, json) <==> Protected(d, x, 1, json)
  {
    hide Protected, After;
    forall x ensures Protected(After(d, e, json), x, 1, json) <==> Protected(d, x, 1, json) {
      ProtectionUnmoved(d, e, x, json);
    }
  }

  lemma StepKeepsFinal(d: Disk, e: Step, candidates: seq<Id>, json: Json)
    requires CleanupStep(d, e, candidates, json)
    ensures Final(After(d, e, json), candidates, json) == Final(d, candidates, json)
    ensures After(d, e, json).plan == d.plan
  {
    hide Protected;
    SameDoomed(d, e, candidates, json);
    var gone := DoomedIds(d, candidates, json);
    assert e.id in gone;
    assert d.generations - {e.id} - gone == d.generations - gone;
    assert d.trash + {e.id} - gone == d.trash - gone;
    assert d.trash - {e.id} - gone == d.trash - gone;
  }

  /** Nothing the plan dooms is left on the disk. */
  ghost predicate Settled(d: Disk, candidates: seq<Id>, json: Json) {
    forall id :: Doomed(d, candidates, id, json) ==> id !in d.generations && id !in d.trash
  }

  lemma SettledIsFinal(d: Disk, candidates: seq<Id>, json: Json)
    requires Settled(d, candidates, json)
    ensures d.(plan := None) == Final(d, candidates, json)
  {
    hide Protected;
    var gone := DoomedIds(d, candidates, json);
    assert d.generations - gone == d.generations && d.trash - gone == d.trash;
  }

  /** However the steps of a plan are interrupted, repeated or spread over processes, every state on the way leads to
      the same end, and once nothing is left to do that end is reached. */
  lemma {:induction false} PlansConverge(run: seq<Disk>, steps: seq<Step>, candidates: seq<Id>, json: Json)
    requires IsRun(run, steps, json)
    requires forall k :: 0 <= k < |steps| ==> CleanupStep(run[k], steps[k], candidates, json)
    ensures Final(run[|steps|], candidates, json) == Final(run[0], candidates, json)
    ensures Settled(run[|steps|], candidates, json) ==>
              run[|steps|].(plan := None) == Final(run[0], candidates, json)
    decreases |steps|
  {
    hide CleanupStep, Settled, Final, Allowed, After;
    if steps == [] {
    } else {
      assert StepAt(run, steps, 0, json);
      StepKeepsFinal(run[0], steps[0], candidates, json);
      RunTail(run, steps, json);
      PlansConverge(run[1..], steps[1..], candidates, json);
    }
    if Settled(run[|steps|], candidates, json) {
      SettledIsFinal(run[|steps|], candidates, json);
    }
  }

  lemma RunTail(run: seq<Disk>, steps: seq<Step>, json: Json)
    requires IsRun(run, steps, json) && steps != []
    ensures IsRun(run[1..], steps[1..], json)
  {
    hide Allowed, After;
    forall k | 0 <= k < |steps[1..]| ensures StepAt(run[1..], steps[1..], k, json) {
      assert StepAt(run, steps, k + 1, json);
    }
  }

  /** What a finished plan leaves alone: everything protected, and every generation that was not a candidate. */
  lemma FinalKeeps(d: Disk, candidates: seq<Id>, id: Id, json: Json)
    requires id in d.generations
    requires id !in candidates || Protected(d, id, 1, json)
    ensures id in Final(d, candidates, json).generations
    ensures Final(d, candidates, json).generations[id] == d.generations[id]
  {
    hide Protected;
    assert id !in DoomedIds(d, candidates, json);
  }
}
