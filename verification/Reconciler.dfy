/** The reconciler: one pass lists the Workflows of the default tenant and attempts one conditional
    write for each that is not converged. */
module Reconciler {
  import opened Bytes
  import opened Api
  import opened Table
  import opened Paging
  import opened Store
  import opened Status
  import Handlers

  const WORKFLOWS := Filter(DEFAULT_TENANT, KIND_WORKFLOW, [], map[])

  predicate IsReconciled(key: Key) {
    key.tenant == DEFAULT_TENANT && key.kind == KIND_WORKFLOW
  }

  /** The write to attempt for a listed record: none when its status is converged or its body is not
      a Workflow.  Everything but the body, and of the body everything but the status, is kept. */
  function DesiredWrite(rec: Record, now: Readings): Option<Record> {
    if !rec.data.Workflow? then None
    else
      var desired := ComputeStatus(rec.data.workflowSpec, rec.data.workflowStatus, rec.generation, now);
      if rec.data.workflowStatus == Some(desired) then None
      else Some(rec.(data := Handlers.WithMeta(rec.data, Handlers.MetaOf(rec.data)).(workflowStatus := Some(desired))))
  }

  /** A write keeps the record but for its body, and the body but for its status. */
  lemma DesiredWriteKeeps(rec: Record, now: Readings)
    requires DesiredWrite(rec, now).Some?
    ensures var write := DesiredWrite(rec, now).value;
            && rec.data.Workflow? && write.data.Workflow?
            && write == rec.(data := write.data)
            && write.data.workflowSpec == rec.data.workflowSpec
            && Handlers.MetaOf(write.data) == Handlers.MetaOf(rec.data)
            && write.data.metadata.Some?
            && write.data.workflowStatus.Some?
            && Reports(write.data.workflowStatus.value, rec.data.workflowSpec, rec.generation)
  {
    ComputedReports(rec.data.workflowSpec, rec.data.workflowStatus, rec.generation, now);
  }

  /** Reconciling one listed record against the table as it is by then; a conflict or a missing row
      leaves the table as it is. */
  function ReconcileRecord(t: Rows, rec: Record, now: Readings): Rows {
    var write := DesiredWrite(rec, now);
    if write.None? then t else Replace(t, write.value).0
  }

  /** A row after an undisturbed reconcile of it. */
  function ReconciledRow(row: Row, now: Readings): Row {
    var write := DesiredWrite(ToRecord(row), now);
    if write.None? then row else Bumped(row, write.value)
  }

  /** The table after an undisturbed pass. */
  ghost function Pass(t: Rows, clock: Key -> Readings): Rows {
    map k | k in t :: if IsReconciled(k) then ReconciledRow(t[k], clock(k)) else t[k]
  }

  /** A row that a reconcile leaves alone. */
  predicate Converged(row: Row) {
    DesiredWrite(ToRecord(row), Readings(0, 0)).None?
  }

  lemma ConvergedWhateverTheClock(row: Row, now: Readings)
    ensures Converged(row) <==> DesiredWrite(ToRecord(row), now).None?
  {
    if row.data.Workflow? {
      ConvergedIgnoresClock(row.data.workflowSpec, row.data.workflowStatus, row.generation, now, Readings(0, 0));
    }
  }

  /** One reconcile converges the row and touches nothing but its version and its status, of which it
      keeps the run counters, or starts them at zero; the status is then the computed one. */
  lemma ReconcileConverges(row: Row, now: Readings)
    ensures var r := ReconciledRow(row, now);
            && Converged(r)
            && (Converged(row) ==> r == row)
            && (!Converged(row) ==> r.rv == row.rv + 1 && row.data.Workflow?)
            && r == row.(rv := r.rv, data := r.data)
            && KindOf(r.data) == KindOf(row.data)
            && SameSpec(r.data, row.data)
            && (row.data.metadata.Some? ==> r.data.metadata == row.data.metadata)
            && (row.data.Workflow? ==>
                  && r.data.workflowStatus.Some?
                  && Reports(r.data.workflowStatus.value, row.data.workflowSpec, row.generation))
            && (row.data.Workflow? && row.data.workflowStatus.Some? ==>
                  && r.data.workflowStatus.value.activeRunCount == row.data.workflowStatus.value.activeRunCount
                  && r.data.workflowStatus.value.lastRunRef == row.data.workflowStatus.value.lastRunRef)
            && (row.data.Workflow? && row.data.workflowStatus.None? ==>
                  r.data.workflowStatus.value.activeRunCount == 0 && r.data.workflowStatus.value.lastRunRef == "")
            && (row.data.Workflow? ==>
                  r.data.workflowStatus
                    == Some(ComputeStatus(row.data.workflowSpec, row.data.workflowStatus, row.generation, now)))
  {
    ConvergedWhateverTheClock(row, now);
    var r := ReconciledRow(row, now);
    if row.data.Workflow? {
      ComputedReports(row.data.workflowSpec, row.data.workflowStatus, row.generation, now);
      ComputeIsFixedPoint(row.data.workflowSpec, row.data.workflowStatus, row.generation, now, Readings(0, 0));
    }
  }

  // ----- properties of a whole pass -----

  ghost predicate AllConverged(t: Rows) {
    forall k :: k in t && IsReconciled(k) ==> Converged(t[k])
  }

  /** Quiescent convergence.  One undisturbed pass leaves every Workflow of the default tenant
      converged and reporting on its own spec; specs, labels, generations, identities, other kinds
      and other tenants stay as they were; a second pass changes nothing. */
  lemma PassConverges(t: Rows, clock: Key -> Readings, later: Key -> Readings)
    ensures AllConverged(Pass(t, clock))
    ensures Pass(Pass(t, clock), later) == Pass(t, clock)
    ensures Pass(t, clock).Keys == t.Keys
    ensures forall k :: k in t && !IsReconciled(k) ==> Pass(t, clock)[k] == t[k]
    ensures forall k :: k in t ==>
              var r := Pass(t, clock)[k];
              && r == t[k].(rv := r.rv, data := r.data)
              && SameSpec(r.data, t[k].data)
              && (IsReconciled(k) && r.data.Workflow? ==>
                    && r.data.workflowStatus.Some?
                    && Reports(r.data.workflowStatus.value, r.data.workflowSpec, r.generation))
  {
    forall k | k in t
      ensures ReconciledRow(ReconciledRow(t[k], clock(k)), later(k)) == ReconciledRow(t[k], clock(k))
    {
      ReconcileConverges(t[k], clock(k));
      ReconcileConverges(ReconciledRow(t[k], clock(k)), later(k));
    }
    forall k | k in t ensures
      var r := ReconciledRow(t[k], clock(k));
      && Converged(r)
      && r == t[k].(rv := r.rv, data := r.data)
      && SameSpec(r.data, t[k].data)
      && (r.data.Workflow? ==>
            r.data.workflowStatus.Some? && Reports(r.data.workflowStatus.value, r.data.workflowSpec, r.generation))
    {
      ReconcileConverges(t[k], clock(k));
    }
    assert Pass(Pass(t, clock), later) == Pass(t, clock);
  }

  // ----- the pass as the loop runs it -----

  ghost function KeysOf(recs: seq<Record>): set<Key> {
    set rec | rec in recs :: rec.key
  }

  /** The table when the records of these keys have been visited. */
  ghost function PartialPass(t: Rows, done: set<Key>, clock: Key -> Readings): Rows {
    map k | k in t :: if k in done then ReconciledRow(t[k], clock(k)) else t[k]
  }

  /** Visiting a record that was listed and not yet visited reconciles its row. */
  lemma VisitAdvances(t: Rows, done: set<Key>, clock: Key -> Readings, key: Key)
    requires key in t && t[key].key == key && key !in done
    ensures ReconcileRecord(PartialPass(t, done, clock), ToRecord(t[key]), clock(key))
              == PartialPass(t, done + {key}, clock)
  {
  }

  /** The record is what the table holds of a Workflow of the default tenant. */
  ghost predicate IsListedFrom(t: Rows, rec: Record) {
    rec.key in t && IsReconciled(rec.key) && t[rec.key].key == rec.key && rec == ToRecord(t[rec.key])
  }

  /** The listing the pass starts from holds each Workflow of the default tenant exactly once. */
  lemma ListedWorkflows(rows: seq<Row>)
    requires Sorted(rows)
    ensures var recs := Records(Collect(rows, WORKFLOWS, None));
            && List(rows, ListOptions(WORKFLOWS, 0, [])) == Ok((recs, []))
            && (forall i :: 0 <= i < |recs| ==> IsListedFrom(TableOf(rows), recs[i]))
            && (forall i, j :: 0 <= i < j < |recs| ==> recs[i].key != recs[j].key)
            && KeysOf(recs) == set k | k in TableOf(rows) && k.tenant == "default" && k.kind == "Workflow"
  {
    var out := Collect(rows, WORKFLOWS, None);
    var recs := Records(out);
    CollectMembers(rows, WORKFLOWS, None);
    CollectAscending(rows, WORKFLOWS, None);
    TableOfRepresents(rows);
    forall i | 0 <= i < |recs| ensures IsListedFrom(TableOf(rows), recs[i]) {
      assert out[i] in rows;
      var j :| 0 <= j < |rows| && rows[j] == out[i];
    }
    forall i, j | 0 <= i < j < |recs| ensures recs[i].key != recs[j].key {
      CursorLessIrreflexive(CursorOf(out[i].key));
    }
    forall k | k in TableOf(rows) && IsReconciled(k) ensures k in KeysOf(recs) {
      assert TableOf(rows)[k] in out;
      var i :| 0 <= i < |out| && out[i] == TableOf(rows)[k];
      assert recs[i].key == k;
    }
  }

  class Controller {
    const store: SqliteStore

    constructor (store: SqliteStore)
      ensures this.store == store
    {
      this.store := store;
    }

    method ReconcileWorkflow(rec: Record, now: Readings)
      requires store.Valid()
      modifies store
      ensures store.Valid() && store.Contents() == ReconcileRecord(old(store.Contents()), rec, now)
    {
      if !rec.data.Workflow? {
        return;
      }
      var wf := rec.data;
      if wf.metadata.None? {
        wf := Workflow(Some(EMPTY_META), wf.workflowSpec, wf.workflowStatus);
      }
      var desired := ComputeStatus(wf.workflowSpec, wf.workflowStatus, rec.generation, now);
      if wf.workflowStatus == Some(desired) {
        return;
      }
      wf := wf.(workflowStatus := Some(desired));
      // A conflict or a missing row raced with an API write; the next pass sees the fresh state.
      var _ := store.Update(rec.(data := wf));
    }

    method ReconcileAll(clock: Key -> Readings)
      requires store.Valid()
      modifies store
      ensures store.Valid() && store.Contents() == Pass(old(store.Contents()), clock)
    {
      ghost var t := store.Contents();
      ListedWorkflows(store.rows);
      var listing := store.ListRecords(ListOptions(WORKFLOWS, 0, []));
      if listing.Err? {
        return;
      }
      var recs := listing.value.0;
      assert store.Contents() == PartialPass(t, KeysOf(recs[..0]), clock);
      for i := 0 to |recs|
        invariant store.Valid()
        invariant store.Contents() == PartialPass(t, KeysOf(recs[..i]), clock)
      {
        assert recs[..i + 1] == recs[..i] + [recs[i]];
        assert KeysOf(recs[..i + 1]) == KeysOf(recs[..i]) + {recs[i].key};
        assert IsListedFrom(t, recs[i]);
        VisitAdvances(t, KeysOf(recs[..i]), clock, recs[i].key);
        ReconcileWorkflow(recs[i], clock(recs[i].key));
      }
      assert recs[..|recs|] == recs;
      assert PartialPass(t, KeysOf(recs), clock) == Pass(t, clock);
    }
  }
}
