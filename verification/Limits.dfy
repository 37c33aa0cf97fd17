/** Runs the control plane does allow, and in which a property fails that honest clients, or
    incarnations left alone, can rely on. */
module Limits {
  import opened Bytes
  import opened Api
  import opened Table
  import opened Status
  import opened Reconciler
  import opened ControlPlane
  import opened Lineages
  import opened Paging
  import opened Walks
  import opened Atomicity
  import opened Transitions
  import opened Orphans
  import H = Handlers

  // ----- building runs -----

  /** One more action at the end of a run. */
  lemma {:induction false} Extend(d: Discipline, s: State, run: seq<Action>, a: Action)
    requires IsRun(d, s, run) && Allowed(d, Exec(s, run), a)
    ensures IsRun(d, s, run + [a]) && Exec(s, run + [a]) == Step(Exec(s, run), a)
    decreases |run|
  {
    if run == [] {
      assert run + [a] == [a] && [a][1..] == [];
    } else {
      Extend(d, Step(s, run[0]), run[1..], a);
      assert (run + [a])[1..] == run[1..] + [a];
    }
  }

  predicate OnlyCreates(run: seq<Action>) {
    forall a :: a in run ==> a.BeginCreate? || a.FinishCreate?
  }

  function Named(name: Str, project: Str): ObjectMeta {
    EMPTY_META.(name := name, project := project)
  }

  function CreatedRow(tenant: Str, request: Resource, uid: string, now: Time): Row {
    NewRow(H.MarshalForStore(tenant, H.StampedForCreate(tenant, request)), uid, now)
  }

  /** Finishing a create whose key is free stores its first version. */
  lemma CreateStores(s: State, op: int, uid: string, now: Time)
    requires IsCreating(s, op)
    requires var p := s.pending[op];
             H.KeyFor(p.tenant, p.request) !in s.table
               && InsertAllowed(s.table, s.tenants, H.KeyFor(p.tenant, p.request), uid)
    ensures var p := s.pending[op];
            var key, row := H.KeyFor(p.tenant, p.request), CreatedRow(p.tenant, p.request, uid, now);
            var s' := Step(s, FinishCreate(op, uid, now));
            && row.key == key
            && s' == s.(table := s.table[key := row], history := Recorded(s.history, row),
                        pending := s.pending - {op}, apiWrites := s.apiWrites + 1)
  {
  }

  const PROJECT: Resource := Project(Some(Named("p", [])), None, None)
  const PROJECT_KEY := H.ProjectKey(DEFAULT_TENANT, "p")
  const WORKFLOW_KEY := Key(DEFAULT_TENANT, KIND_WORKFLOW, "p", "w")
  const WORKFLOW_TARGET := H.Target(KIND_WORKFLOW, "p", "w")

  function WorkflowRequest(spec: Option<WorkflowSpec>): Resource {
    Workflow(Some(Named("w", "p")), spec, None)
  }

  /** The run that creates the project `p`, and the state after it. */
  lemma WithProject(d: Discipline) returns (run: seq<Action>, s: State)
    ensures IsRun(d, Init({DEFAULT_TENANT}), run) && Exec(Init({DEFAULT_TENANT}), run) == s
    ensures s.tenants == {DEFAULT_TENANT} && s.pending == map[] && s.snapshot == map[]
    ensures s.table.Keys == {PROJECT_KEY} && s.table[PROJECT_KEY].uid == "a" && s.history.Keys == {"a"}
    ensures OnlyCreates(run)
  {
    var s0 := Init({DEFAULT_TENANT});
    var a0, a1 := BeginCreate(0, DEFAULT_TENANT, PROJECT), FinishCreate(0, "a", 0);
    run, s := [], s0;
    Extend(d, s0, run, a0);
    run, s := run + [a0], Step(s, a0);
    assert s.pending == map[0 := Creating(DEFAULT_TENANT, PROJECT)];
    CreateStores(s, 0, "a", 0);
    Extend(d, s0, run, a1);
    run, s := run + [a1], Step(s, a1);
    assert s.pending == map[];
  }

  /** From a state that holds the project and no workflow, a workflow with any spec can be created. */
  lemma WithWorkflow(d: Discipline, run0: seq<Action>, s0: State, spec: Option<WorkflowSpec>, uid: string)
      returns (run: seq<Action>, s: State)
    requires IsRun(d, Init({DEFAULT_TENANT}), run0) && Exec(Init({DEFAULT_TENANT}), run0) == s0
    requires s0.tenants == {DEFAULT_TENANT} && uid !in s0.history
    requires PROJECT_KEY in s0.table && WORKFLOW_KEY !in s0.table
    requires forall k :: k in s0.table ==> s0.table[k].uid != uid
    ensures IsRun(d, Init({DEFAULT_TENANT}), run) && Exec(Init({DEFAULT_TENANT}), run) == s
    ensures var row := CreatedRow(DEFAULT_TENANT, WorkflowRequest(spec), uid, 0);
            s.table == s0.table[WORKFLOW_KEY := row] && s.history == Recorded(s0.history, row)
    ensures s.tenants == s0.tenants && s.snapshot == s0.snapshot
    ensures OnlyCreates(run0) ==> OnlyCreates(run)
  {
    var a0, a1 := BeginCreate(1, DEFAULT_TENANT, WorkflowRequest(spec)), FinishCreate(1, uid, 0);
    var init := Init({DEFAULT_TENANT});
    Extend(d, init, run0, a0);
    run, s := run0 + [a0], Step(s0, a0);
    assert s.pending[1] == Creating(DEFAULT_TENANT, WorkflowRequest(spec));
    CreateStores(s, 1, uid, 0);
    Extend(d, init, run, a1);
    run, s := run + [a1], Step(s, a1);
  }

  /** A workflow is created, listed by the reconciler and deleted. */
  lemma ListedThenDeleted(spec: Option<WorkflowSpec>) returns (run: seq<Action>, s: State)
    ensures IsRun(HonestClients, Init({DEFAULT_TENANT}), run) && Exec(Init({DEFAULT_TENANT}), run) == s
    ensures s.tenants == {DEFAULT_TENANT} && s.table.Keys == {PROJECT_KEY} && s.table[PROJECT_KEY].uid == "a"
    ensures s.history.Keys == {"a", "b"}
    ensures WORKFLOW_KEY in s.snapshot
    ensures s.snapshot[WORKFLOW_KEY] == ToRecord(CreatedRow(DEFAULT_TENANT, WorkflowRequest(spec), "b", 0))
  {
    var init := Init({DEFAULT_TENANT});
    run, s := WithProject(HonestClients);
    assert PROJECT_KEY.kind[0] != WORKFLOW_KEY.kind[0];
    run, s := WithWorkflow(HonestClients, run, s, spec, "b");
    Extend(HonestClients, init, run, ListWorkflows);
    run, s := run + [ListWorkflows], Step(s, ListWorkflows);
    var delete := Delete(DEFAULT_TENANT, WORKFLOW_TARGET);
    Extend(HonestClients, init, run, delete);
    run, s := run + [delete], Step(s, delete);
  }

  /** Versions restart at 1 with a new incarnation, and an update does not compare uids: a Workflow
      that is deleted and created anew between the reconciler's listing and its write is overwritten
      with the body of the old one, whatever the two specs are. */
  lemma RecreatedWorkflowLosesItsSpec(first: Option<WorkflowSpec>, second: Option<WorkflowSpec>, readings: Readings)
      returns (run: seq<Action>, before: State)
    ensures IsRun(HonestClients, Init({DEFAULT_TENANT}), run) && Exec(Init({DEFAULT_TENANT}), run) == before
    ensures WORKFLOW_KEY in before.table && before.table[WORKFLOW_KEY].uid == "c"
    ensures before.table[WORKFLOW_KEY].data.Workflow? && before.table[WORKFLOW_KEY].data.workflowSpec == second
    ensures var after := Step(before, Reconcile(WORKFLOW_KEY, readings));
            && !SameIncarnation(before, Reconcile(WORKFLOW_KEY, readings))
            && WORKFLOW_KEY in after.table && after.table[WORKFLOW_KEY].uid == "c"
            && after.table[WORKFLOW_KEY].data.Workflow? && after.table[WORKFLOW_KEY].data.workflowSpec == first
  {
    var s: State;
    run, s := ListedThenDeleted(first);
    assert PROJECT_KEY.kind[0] != WORKFLOW_KEY.kind[0];
    run, before := WithWorkflow(HonestClients, run, s, second, "c");
    StaleListingWins(before, WORKFLOW_KEY, CreatedRow(DEFAULT_TENANT, WorkflowRequest(first), "b", 0), readings);
  }

  /** A listed record without a status is written over any row that has the same version. */
  lemma StaleListingWins(s: State, key: Key, row: Row, readings: Readings)
    requires key in s.snapshot && s.snapshot[key] == ToRecord(row) && row.key == key
    requires row.data.Workflow? && row.data.workflowStatus.None?
    requires key in s.table && s.table[key].rv == row.rv
    ensures var after := Step(s, Reconcile(key, readings));
            && key in after.table && after.table[key].uid == s.table[key].uid
            && after.table[key].data.Workflow? && after.table[key].data.workflowSpec == row.data.workflowSpec
  {
  }

  /** A handler that reads a row of its kind holds what it read. */
  lemma UpdateReads(s: State, op: int, tenant: Str, request: Resource)
    requires H.Named(request) && H.MetaOf(request).resourceVersion != ""
    requires H.KeyFor(tenant, request) in s.table
    requires KindOf(s.table[H.KeyFor(tenant, request)].data) == KindOf(request)
    ensures Step(s, BeginUpdate(op, tenant, request))
              == s.(pending := s.pending[op := Updating(tenant, request, ToRecord(s.table[H.KeyFor(tenant, request)]))])
  {
  }

  /** Two handlers that have read the first version of a new workflow: the client of one named the
      next version, which no row has yet; the client of the other named the current one. */
  lemma TwoReaders(first: Option<WorkflowSpec>, second: Option<WorkflowSpec>, third: Option<WorkflowSpec>)
      returns (run: seq<Action>, s: State)
    ensures IsRun(OneIncarnation, Init({DEFAULT_TENANT}), run) && Exec(Init({DEFAULT_TENANT}), run) == s
    ensures var row := CreatedRow(DEFAULT_TENANT, WorkflowRequest(first), "b", 0);
            && WORKFLOW_KEY in s.table && s.table[WORKFLOW_KEY] == row
            && "b" in s.history && s.history["b"] == [row]
            && 2 in s.pending && s.pending[2] == Updating(DEFAULT_TENANT, VersionedRequest(third, "2"), ToRecord(row))
            && 3 in s.pending && s.pending[3] == Updating(DEFAULT_TENANT, VersionedRequest(second, "1"), ToRecord(row))
  {
    var init := Init({DEFAULT_TENANT});
    run, s := WithProject(OneIncarnation);
    assert PROJECT_KEY.kind[0] != WORKFLOW_KEY.kind[0];
    run, s := WithWorkflow(OneIncarnation, run, s, first, "b");
    var a0 := BeginUpdate(2, DEFAULT_TENANT, VersionedRequest(third, "2"));
    var a1 := BeginUpdate(3, DEFAULT_TENANT, VersionedRequest(second, "1"));
    UpdateReads(s, 2, DEFAULT_TENANT, a0.request);
    Extend(OneIncarnation, init, run, a0);
    run, s := run + [a0], Step(s, a0);
    UpdateReads(s, 3, DEFAULT_TENANT, a1.request);
    Extend(OneIncarnation, init, run, a1);
    run, s := run + [a1], Step(s, a1);
  }

  /** A handler takes the generation from the row it read, and the token from the client.  A client
      that names a version the row does not have yet can have its write accepted later, on top of a
      version its handler never saw: then one generation has two specs, whatever specs the three
      writes carry, as long as each changes the spec. */
  lemma UnissuedTokenBreaksGenerations(
      first: Option<WorkflowSpec>, second: Option<WorkflowSpec>, third: Option<WorkflowSpec>)
      returns (run: seq<Action>)
    requires first != second && second != third && first != third
    ensures IsRun(OneIncarnation, Init({DEFAULT_TENANT}), run)
    ensures var s := Exec(Init({DEFAULT_TENANT}), run);
            && "b" in s.history && |s.history["b"]| == 3
            && var h := s.history["b"];
               && h[1].generation == h[2].generation == 2
               && !SameSpec(h[1].data, h[2].data)
               && SpecChanges(h) == 2
  {
    var init := Init({DEFAULT_TENANT});
    var s: State;
    run, s := TwoReaders(first, second, third);
    assert Decimal(1) == "1" && Decimal(2) == "2";
    var row1 := s.table[WORKFLOW_KEY];
    Extend(OneIncarnation, init, run, FinishUpdate(3));
    UpdateLands(s, 3);
    run, s := run + [FinishUpdate(3)], Step(s, FinishUpdate(3));
    var row2 := s.table[WORKFLOW_KEY];
    assert s.history["b"] == [row1] + [row2];
    Extend(OneIncarnation, init, run, FinishUpdate(2));
    UpdateLands(s, 2);
    run, s := run + [FinishUpdate(2)], Step(s, FinishUpdate(2));
    var row3 := s.table[WORKFLOW_KEY];
    assert s.history["b"] == [row1] + [row2] + [row3];
    TwoChanges(row1, row2, row3);
  }

  lemma TwoChanges(row1: Row, row2: Row, row3: Row)
    requires !SameSpec(row1.data, row2.data) && !SameSpec(row2.data, row3.data)
    ensures SpecChanges([row1] + [row2] + [row3]) == 2
  {
    var h := [row1] + [row2] + [row3];
    assert h[..|h| - 1] == [row1, row2] && [row1, row2][..1] == [row1];
    assert SpecChanges([row1, row2]) == 1;
  }

  function ReportingRequest(version: string, status: WorkflowStatus): Resource {
    Workflow(Some(Named("w", "p").(resourceVersion := version)), None, Some(status))
  }

  function VersionedRequest(spec: Option<WorkflowSpec>, version: string): Resource {
    Workflow(Some(Named("w", "p").(resourceVersion := version)), spec, None)
  }

  /** Finishing an update whose token is the current version stores the next one. */
  lemma UpdateLands(s: State, op: int)
    requires IsUpdating(s, op)
    requires var p := s.pending[op];
             && p.current.key == H.KeyFor(p.tenant, p.request) && p.current.key in s.table
             && H.MetaOf(p.request).resourceVersion == Decimal(s.table[p.current.key].rv)
    ensures var p := s.pending[op];
            var row := Bumped(s.table[p.current.key], H.RecordForUpdate(p.tenant, p.request, p.current));
            Step(s, FinishUpdate(op)) == s.(table := s.table[p.current.key := row], history := Recorded(s.history, row),
                                            pending := s.pending - {op}, apiWrites := s.apiWrites + 1)
  {
    var p := s.pending[op];
    assert H.RecordForUpdate(p.tenant, p.request, p.current).key == p.current.key;
  }

  /** An update stores whatever status its client sends, the token being honest or not: a made-up status
      claims that a Workflow without a spec is ready, at its current generation. */
  lemma MadeUpStatusIsStored(status: WorkflowStatus) returns (run: seq<Action>)
    requires status.observedGeneration == 1 && StateOf(status, "Ready") == "True"
    ensures IsRun(HonestTokens, Init({DEFAULT_TENANT}), run)
    ensures var s := Exec(Init({DEFAULT_TENANT}), run);
            && WORKFLOW_KEY in s.table
            && var row := s.table[WORKFLOW_KEY];
               && row.data.Workflow? && row.data.workflowStatus == Some(status)
               && status.observedGeneration == row.generation
               && !Reports(status, row.data.workflowSpec, row.generation)
  {
    var init := Init({DEFAULT_TENANT});
    var s: State;
    run, s := WithProject(HonestTokens);
    assert PROJECT_KEY.kind[0] != WORKFLOW_KEY.kind[0];
    run, s := WithWorkflow(HonestTokens, run, s, None, "b");
    assert Decimal(1) == "1";
    var begin := BeginUpdate(2, DEFAULT_TENANT, ReportingRequest("1", status));
    UpdateReads(s, 2, DEFAULT_TENANT, begin.request);
    assert H.MetaOf(begin.request).resourceVersion == Decimal(s.history["b"][0].rv);
    Extend(HonestTokens, init, run, begin);
    run, s := run + [begin], Step(s, begin);
    Extend(HonestTokens, init, run, FinishUpdate(2));
    UpdateLands(s, 2);
    run, s := run + [FinishUpdate(2)], Step(s, FinishUpdate(2));
    assert !Runnable(None) && BoolText(false)[0] != "True"[0];
  }

  /** A create may have looked its project up just before the project is deleted. */
  lemma ProjectDeletedAfterLookup(spec: Option<WorkflowSpec>) returns (run: seq<Action>, s: State)
    ensures IsRun(HonestClients, Init({DEFAULT_TENANT}), run) && Exec(Init({DEFAULT_TENANT}), run) == s
    ensures s.tenants == {DEFAULT_TENANT} && s.table == map[] && s.history.Keys == {"a"}
    ensures s.pending == map[1 := Creating(DEFAULT_TENANT, WorkflowRequest(spec))]
  {
    var init := Init({DEFAULT_TENANT});
    run, s := WithProject(HonestClients);
    assert PROJECT_KEY.kind[0] != WORKFLOW_KEY.kind[0];
    var a0 := BeginCreate(1, DEFAULT_TENANT, WorkflowRequest(spec));
    var a1 := Delete(DEFAULT_TENANT, H.Target(KIND_PROJECT, [], "p"));
    Extend(HonestClients, init, run, a0);
    run, s := run + [a0], Step(s, a0);
    Extend(HonestClients, init, run, a1);
    run, s := run + [a1], Step(s, a1);
    assert s.table == map[];
  }

  /** The Project of a new Workflow is looked up in one step and the Workflow stored in another: a
      Workflow can be born after its Project. */
  lemma OrphanWorkflow(spec: Option<WorkflowSpec>) returns (run: seq<Action>)
    ensures IsRun(HonestClients, Init({DEFAULT_TENANT}), run)
    ensures var s := Exec(Init({DEFAULT_TENANT}), run); WORKFLOW_KEY in s.table && PROJECT_KEY !in s.table
  {
    var init := Init({DEFAULT_TENANT});
    var s: State;
    run, s := ProjectDeletedAfterLookup(spec);
    assert PROJECT_KEY.kind[0] != WORKFLOW_KEY.kind[0];
    var a2 := FinishCreate(1, "b", 0);
    CreateStores(s, 1, "b", 0);
    Extend(HonestClients, init, run, a2);
    run, s := run + [a2], Step(s, a2);
  }

  /** A delete of a Project looks at no Workflow: a Workflow can outlive its Project, too, in a run in which
      every handler happens at once. */
  lemma OrphanedByDelete(spec: Option<WorkflowSpec>) returns (run: seq<Action>)
    ensures IsRun(HonestClients, Init({DEFAULT_TENANT}), run)
    ensures OnlyWholeHandlers(LinearizedRun(Init({DEFAULT_TENANT}), run))
    ensures var s := Exec(Init({DEFAULT_TENANT}), run); WORKFLOW_KEY in s.table && PROJECT_KEY !in s.table
  {
    var init := Init({DEFAULT_TENANT});
    var s: State;
    run, s := WithProject(HonestClients);
    assert PROJECT_KEY.kind[0] != WORKFLOW_KEY.kind[0];
    run, s := WithWorkflow(HonestClients, run, s, spec, "b");
    OnlyProjectDeletesBreakCreates(init, run);
    var delete := Delete(DEFAULT_TENANT, H.Target(KIND_PROJECT, [], "p"));
    ExtendLinearized(init, run, delete);
    Extend(HonestClients, init, run, delete);
    run, s := run + [delete], Step(s, delete);
  }

  lemma {:induction false} ExtendLinearized(s: State, run: seq<Action>, a: Action)
    ensures LinearizedRun(s, run + [a]) == LinearizedRun(s, run) + [Linearized(Exec(s, run), a)]
    decreases |run|
  {
    if run == [] {
      assert run + [a] == [a] && [a][1..] == [];
    } else {
      assert (run + [a])[1..] == run[1..] + [a];
      ExtendLinearized(Step(s, run[0]), run[1..], a);
    }
  }

  // ----- a status that is dropped -----

  lemma {:induction false} ExtendVisits(s: State, run: seq<Action>, a: Action, uid: string)
    ensures VisitsOf(s, run + [a], uid) == VisitsOf(s, run, uid) + VisitOf(Exec(s, run), a, uid)
    decreases |run|
  {
    if run == [] {
      assert run + [a] == [a] && [a][1..] == [];
    } else {
      assert (run + [a])[1..] == run[1..] + [a];
      ExtendVisits(Step(s, run[0]), run[1..], a, uid);
    }
  }

  lemma {:induction false} CreatesAreNoVisits(s: State, run: seq<Action>, uid: string)
    requires OnlyCreates(run)
    ensures VisitsOf(s, run, uid) == []
    decreases |run|
  {
    if run == [] {
    } else {
      assert run[0] in run && forall a :: a in run[1..] ==> a in run;
      CreatesAreNoVisits(Step(s, run[0]), run[1..], uid);
    }
  }

  /** A Workflow without a status is listed and reconciled. */
  lemma Reconciled(run0: seq<Action>, s0: State, row: Row, readings: Readings) returns (run: seq<Action>, s: State)
    requires var init := Init({DEFAULT_TENANT}); IsRun(HonestClients, init, run0) && Exec(init, run0) == s0
    requires WORKFLOW_KEY in s0.table && s0.table[WORKFLOW_KEY] == row && row.key == WORKFLOW_KEY
    requires row.data.Workflow? && row.data.workflowStatus.None?
    ensures var init := Init({DEFAULT_TENANT});
            && IsRun(HonestClients, init, run) && Exec(init, run) == s
            && VisitsOf(init, run, row.uid)
                 == VisitsOf(init, run0, row.uid) + [Visit(row.data.workflowSpec, row.generation, readings)]
    ensures var row' := ReconciledRow(row, readings);
            && s.table == s0.table[WORKFLOW_KEY := row']
            && s.history == Recorded(s0.history, row')
            && s.tenants == s0.tenants
  {
    var init := Init({DEFAULT_TENANT});
    Extend(HonestClients, init, run0, ListWorkflows);
    ExtendVisits(init, run0, ListWorkflows, row.uid);
    run, s := run0 + [ListWorkflows], Step(s0, ListWorkflows);
    var visit := Reconcile(WORKFLOW_KEY, readings);
    VisitStores(s, row, readings);
    Extend(HonestClients, init, run, visit);
    ExtendVisits(init, run, visit, row.uid);
    run, s := run + [visit], Step(s, visit);
  }

  lemma VisitStores(s: State, row: Row, readings: Readings)
    requires WORKFLOW_KEY in s.table && s.table[WORKFLOW_KEY] == row && row.key == WORKFLOW_KEY
    requires WORKFLOW_KEY in s.snapshot && s.snapshot[WORKFLOW_KEY] == ToRecord(row)
    requires row.data.Workflow? && row.data.workflowStatus.None?
    ensures ReconciledTable(s, WORKFLOW_KEY, readings) == s.table[WORKFLOW_KEY := ReconciledRow(row, readings)]
    ensures Wrote(s, WORKFLOW_KEY, ReconciledTable(s, WORKFLOW_KEY, readings))
  {
  }

  /** A handler that updates a Workflow under its current version, without a status, has read it. */
  lemma DropBegun(run0: seq<Action>, s0: State, row: Row, request: Resource) returns (run: seq<Action>, s: State)
    requires var init := Init({DEFAULT_TENANT}); IsRun(HonestClients, init, run0) && Exec(init, run0) == s0
    requires WORKFLOW_KEY in s0.table && s0.table[WORKFLOW_KEY] == row && row.key == WORKFLOW_KEY
    requires row.data.Workflow? && request == VersionedRequest(row.data.workflowSpec, Decimal(row.rv))
    requires row.uid in s0.history && s0.history[row.uid] != [] && Latest(s0.history[row.uid]) == row
    ensures var init := Init({DEFAULT_TENANT});
            && IsRun(HonestClients, init, run) && Exec(init, run) == s
            && VisitsOf(init, run, row.uid) == VisitsOf(init, run0, row.uid)
    ensures s == s0.(pending := s0.pending[2 := Updating(DEFAULT_TENANT, request, ToRecord(row))])
  {
    var init := Init({DEFAULT_TENANT});
    var begin := BeginUpdate(2, DEFAULT_TENANT, request);
    DecimalRoundTrip(row.rv);
    UpdateReads(s0, 2, DEFAULT_TENANT, request);
    var h := s0.history[row.uid];
    assert H.MetaOf(request).resourceVersion == Decimal(h[|h| - 1].rv);
    Extend(HonestClients, init, run0, begin);
    ExtendVisits(init, run0, begin, row.uid);
    run, s := run0 + [begin], Step(s0, begin);
  }

  /** What such an update stores. */
  lemma DroppedRow(row: Row, request: Resource)
    requires row.data.Workflow? && request == VersionedRequest(row.data.workflowSpec, Decimal(row.rv))
    ensures var row' := Bumped(row, H.RecordForUpdate(DEFAULT_TENANT, request, ToRecord(row)));
            && row'.key == row.key && row'.uid == row.uid && row'.generation == row.generation
            && row'.data.Workflow? && row'.data.workflowSpec == row.data.workflowSpec && row'.data.workflowStatus.None?
  {
  }

  /** The Workflow keeps its spec and generation, and loses its status. */
  lemma StatusDropped(run0: seq<Action>, s0: State, row: Row) returns (run: seq<Action>, s: State)
    requires var init := Init({DEFAULT_TENANT}); IsRun(HonestClients, init, run0) && Exec(init, run0) == s0
    requires WORKFLOW_KEY in s0.table && s0.table[WORKFLOW_KEY] == row && row.key == WORKFLOW_KEY && row.data.Workflow?
    requires row.uid in s0.history && s0.history[row.uid] != [] && Latest(s0.history[row.uid]) == row
    ensures var init := Init({DEFAULT_TENANT});
            && IsRun(HonestClients, init, run) && Exec(init, run) == s
            && VisitsOf(init, run, row.uid) == VisitsOf(init, run0, row.uid)
    ensures WORKFLOW_KEY in s.table
    ensures var row' := s.table[WORKFLOW_KEY];
            && row'.key == row.key && row'.uid == row.uid && row'.generation == row.generation
            && row'.data.Workflow? && row'.data.workflowSpec == row.data.workflowSpec && row'.data.workflowStatus.None?
  {
    var init := Init({DEFAULT_TENANT});
    var request := VersionedRequest(row.data.workflowSpec, Decimal(row.rv));
    run, s := DropBegun(run0, s0, row, request);
    UpdateLands(s, 2);
    DroppedRow(row, request);
    Extend(HonestClients, init, run, FinishUpdate(2));
    ExtendVisits(init, run, FinishUpdate(2), row.uid);
    run, s := run + [FinishUpdate(2)], Step(s, FinishUpdate(2));
  }

  /** A Workflow is created and reconciled once. */
  lemma CreatedAndReconciled(spec: Option<WorkflowSpec>, readings: Readings) returns (run: seq<Action>, s: State)
    ensures var init := Init({DEFAULT_TENANT});
            && IsRun(HonestClients, init, run) && Exec(init, run) == s
            && VisitsOf(init, run, "b") == [Visit(spec, 1, readings)]
    ensures WORKFLOW_KEY in s.table
    ensures var row := s.table[WORKFLOW_KEY];
            && row.key == WORKFLOW_KEY && row.uid == "b" && row.generation == 1
            && row.data.Workflow? && row.data.workflowSpec == spec
            && "b" in s.history && s.history["b"] != [] && Latest(s.history["b"]) == row
  {
    run, s := WithProject(HonestClients);
    assert PROJECT_KEY.kind[0] != WORKFLOW_KEY.kind[0];
    run, s := WithWorkflow(HonestClients, run, s, spec, "b");
    CreatesAreNoVisits(Init({DEFAULT_TENANT}), run, "b");
    var row := s.table[WORKFLOW_KEY];
    ReconcileConverges(row, readings);
    run, s := Reconciled(run, s, row, readings);
  }

  /** An honest client may leave the status out of an update, and the update drops it: the next reconcile
      dates the conditions anew, although their values never changed. */
  lemma DroppedStatusLosesItsTimes(spec: Option<WorkflowSpec>, first: Readings, second: Readings)
      returns (run: seq<Action>)
    requires first.validated != second.validated
    ensures IsRun(HonestClients, Init({DEFAULT_TENANT}), run)
    ensures var s := Exec(Init({DEFAULT_TENANT}), run);
            && WORKFLOW_KEY in s.table
            && VisitsOf(Init({DEFAULT_TENANT}), run, s.table[WORKFLOW_KEY].uid)
                 == [Visit(spec, 1, first)] + [Visit(spec, 1, second)]
            && !DatesFromVisits({DEFAULT_TENANT}, run, WORKFLOW_KEY, "Validated")
  {
    var s: State;
    run, s := CreatedAndReconciled(spec, first);
    run, s := StatusDropped(run, s, s.table[WORKFLOW_KEY]);
    var row := s.table[WORKFLOW_KEY];
    ReconcileConverges(row, second);
    run, s := Reconciled(run, s, row, second);
    DatedAnew(run, row, spec, first, second);
  }

  lemma DatedAnew(run: seq<Action>, row: Row, spec: Option<WorkflowSpec>, first: Readings, second: Readings)
    requires first.validated != second.validated
    requires row.data.Workflow? && row.data.workflowSpec == spec && row.data.workflowStatus.None? && row.generation == 1
    requires var s := Exec(Init({DEFAULT_TENANT}), run);
             && WORKFLOW_KEY in s.table && s.table[WORKFLOW_KEY] == ReconciledRow(row, second)
             && VisitsOf(Init({DEFAULT_TENANT}), run, s.table[WORKFLOW_KEY].uid)
                  == [Visit(spec, 1, first)] + [Visit(spec, 1, second)]
    ensures !DatesFromVisits({DEFAULT_TENANT}, run, WORKFLOW_KEY, "Validated")
  {
    var visits := [Visit(spec, 1, first)] + [Visit(spec, 1, second)];
    assert visits[..1][0] == visits[0] && LastRunStart(visits) == 0;
    ComputedTime(spec, None, 1, second, "Validated");
  }

  // ----- a listing that never ends -----

  /** A project may have a NUL byte in its name.  If it holds two Workflows or more, fetching them one at
      a time, from a table that does not change, never ends. */
  lemma OneByOneNeverEnds(
      rows: seq<Row>, f: Filter, first: Row, second: Row, limit: nat -> int, pages: seq<seq<Record>>)
    requires Sorted(rows) && f.project != [] && NUL in f.project
    requires first in rows && second in rows && first != second && Matching(first, f) && Matching(second, f)
    requires forall k: nat :: limit(k) == 1
    ensures !IsStaticWalk(rows, f, LimitsFrom(limit, 0, |pages|), [], pages)
  {
    TwoListed(rows, f, first, second);
    WalkEndsExactly(rows, f, limit);
  }

  lemma TwoListed(rows: seq<Row>, f: Filter, first: Row, second: Row)
    requires first in rows && second in rows && first != second && Matching(first, f) && Matching(second, f)
    ensures |Collect(rows, f, None)| > 1
  {
    CollectMembers(rows, f, None);
    assert first in Collect(rows, f, None) && second in Collect(rows, f, None);
  }
}
