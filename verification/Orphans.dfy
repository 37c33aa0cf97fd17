/** Workflows whose Project is not there: which steps leave one, and which runs leave none. */
module Orphans {
  import opened Bytes
  import opened Api
  import opened Table
  import opened Reconciler
  import opened ControlPlane
  import opened Atomicity
  import H = Handlers

  /** Every stored Workflow has its Project. */
  ghost predicate NoOrphans(t: Rows) {
    forall k :: k in t && k.kind == KIND_WORKFLOW ==> H.ProjectKey(k.tenant, k.project) in t
  }

  /** Some stored Workflow names this Project. */
  ghost predicate IsNamed(t: Rows, project: Key) {
    exists k :: k in t && k.kind == KIND_WORKFLOW && H.ProjectKey(k.tenant, k.project) == project
  }

  /** The two ways to leave an orphan: deleting a Project that a Workflow names, and storing a Workflow
      whose Project has gone since it was looked up. */
  ghost predicate LeavesOrphan(s: State, a: Action) {
    || (a.Delete? && H.Complete(a.target) && a.target.kind == KIND_PROJECT
        && IsNamed(s.table, H.TargetKey(a.tenant, a.target)))
    || (a.FinishCreate? && IsCreating(s, a.op)
        && var p := s.pending[a.op];
           && Wrote(s, H.KeyFor(p.tenant, p.request), CreatedTable(s, a.op, a.uid, a.now))
           && !ProjectStands(s.table, p.tenant, p.request))
  }

  // ----- one step -----

  lemma SameKeys(t: Rows, t': Rows)
    requires t'.Keys == t.Keys
    ensures NoOrphans(t') <==> NoOrphans(t)
  {
    assert forall k :: k in t' <==> k in t;
  }

  lemma DeleteOrphansExactly(s: State, a: Action)
    requires a.Delete? && NoOrphans(s.table)
    ensures NoOrphans(Step(s, a).table) <==> !LeavesOrphan(s, a)
  {
    KindsDiffer();
    var t, t', key := s.table, Step(s, a).table, H.TargetKey(a.tenant, a.target);
    if LeavesOrphan(s, a) {
      var k :| k in t && k.kind == KIND_WORKFLOW && H.ProjectKey(k.tenant, k.project) == key;
      assert k in t' && key !in t';
    } else {
      forall k | k in t' && k.kind == KIND_WORKFLOW ensures H.ProjectKey(k.tenant, k.project) in t' {
        assert k in t;
      }
    }
  }

  /** What a create does to the keys of the table. */
  lemma CreatedKeys(s: State, a: Action)
    requires Inv(s) && a.FinishCreate? && FreshUid(s, a) && IsCreating(s, a.op)
    ensures var p := s.pending[a.op];
            var key, t := H.KeyFor(p.tenant, p.request), CreatedTable(s, a.op, a.uid, a.now);
            && t == Step(s, a).table
            && t.Keys == s.table.Keys + (if Wrote(s, key, t) then {key} else {})
            && (Wrote(s, key, t) ==> key !in s.table)
  {
    CreateEffect(s, a.op, a.uid, a.now);
  }

  lemma CreateOrphansExactly(s: State, a: Action)
    requires Inv(s) && a.FinishCreate? && FreshUid(s, a) && NoOrphans(s.table)
    ensures NoOrphans(Step(s, a).table) <==> !LeavesOrphan(s, a)
  {
    KindsDiffer();
    if IsCreating(s, a.op) {
      var p := s.pending[a.op];
      var key, t, t' := H.KeyFor(p.tenant, p.request), s.table, Step(s, a).table;
      var wrote := Wrote(s, key, CreatedTable(s, a.op, a.uid, a.now));
      CreatedKeys(s, a);
      assert forall k :: k in t' <==> k in t || (wrote && k == key);
      assert key.kind == KindOf(p.request);
      if wrote && p.request.Workflow? {
        assert H.ProjectKey(key.tenant, key.project) in t' <==> H.ProjectKey(key.tenant, key.project) in t;
      }
    }
  }

  /** An update, a reconcile and a read leave the keys of the table as they are. */
  lemma OtherStepsKeepKeys(s: State, a: Action)
    requires Inv(s) && !a.FinishCreate? && !a.Delete?
    ensures Step(s, a).table.Keys == s.table.Keys
  {
    if a.FinishUpdate? && IsUpdating(s, a.op) {
      UpdateEffect(s, a.op);
    } else if a.Reconcile? && a.key in s.snapshot {
      ReconcileEffect(s, a.key, a.readings);
    }
  }

  /** Where every Workflow has its Project, a step of any client leaves it so exactly if it is neither the
      delete of a Project that a Workflow names nor the insert of a Workflow whose Project has gone. */
  lemma StepOrphansExactly(s: State, a: Action)
    requires Inv(s) && FreshUid(s, a) && NoOrphans(s.table)
    ensures NoOrphans(Step(s, a).table) <==> !LeavesOrphan(s, a)
  {
    if a.Delete? {
      DeleteOrphansExactly(s, a);
    } else if a.FinishCreate? {
      CreateOrphansExactly(s, a);
    } else {
      OtherStepsKeepKeys(s, a);
      SameKeys(s.table, Step(s, a).table);
    }
  }

  // ----- every run -----

  ghost predicate NoOrphansThroughout(s: State, run: seq<Action>)
    decreases |run|
  {
    NoOrphans(s.table) && (run == [] || NoOrphansThroughout(Step(s, run[0]), run[1..]))
  }

  ghost predicate NeverLeavesOrphan(s: State, run: seq<Action>)
    decreases |run|
  {
    run == [] || (!LeavesOrphan(s, run[0]) && NeverLeavesOrphan(Step(s, run[0]), run[1..]))
  }

  /** Every Workflow has its Project in all states of a run exactly if no step of it is one of these two. */
  lemma {:induction false} RunOrphansExactly(s: State, run: seq<Action>)
    requires Inv(s) && IsRun(AnyRun, s, run) && NoOrphans(s.table)
    ensures NoOrphansThroughout(s, run) <==> NeverLeavesOrphan(s, run)
    decreases |run|
  {
    if run == [] {
    } else {
      var s' := Step(s, run[0]);
      StepKeepsInv(s, run[0]);
      StepOrphansExactly(s, run[0]);
      if NoOrphans(s'.table) {
        RunOrphansExactly(s', run[1..]);
      } else {
        assert !NoOrphansThroughout(s', run[1..]);
      }
    }
  }

  /** A run that deletes no Project leaves no orphan. */
  lemma {:induction false} NoProjectDeletesNoOrphans(s: State, run: seq<Action>)
    requires Inv(s) && IsRun(AnyRun, s, run) && DeletesNoProject(run)
    requires ProjectsStand(s) && NoOrphans(s.table)
    ensures NoOrphansThroughout(s, run) && NoOrphans(Exec(s, run).table)
    decreases |run|
  {
    if run == [] {
    } else {
      assert run[0] in run && forall a :: a in run[1..] ==> a in run;
      StepKeepsInv(s, run[0]);
      StepKeepsProjects(s, run[0]);
      StepOrphansExactly(s, run[0]);
      NoProjectDeletesNoOrphans(Step(s, run[0]), run[1..]);
    }
  }

  /** From the start: no Workflow is ever without its Project exactly if no step leaves one so, and so in
      particular if no Project is deleted. */
  lemma RunFromStartOrphansExactly(tenants: set<Str>, run: seq<Action>)
    requires IsRun(AnyRun, Init(tenants), run)
    ensures NoOrphansThroughout(Init(tenants), run) <==> NeverLeavesOrphan(Init(tenants), run)
    ensures DeletesNoProject(run) ==> NoOrphansThroughout(Init(tenants), run)
  {
    InitInv(tenants);
    RunOrphansExactly(Init(tenants), run);
    if DeletesNoProject(run) {
      NoProjectDeletesNoOrphans(Init(tenants), run);
    }
  }
}
