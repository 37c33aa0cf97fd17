/** Every run of handlers and reconciler, cut between their reads and their writes, is a run in which
    each of them happens at once: a handler at the moment of its write, or of its read if that refuses
    it, and a reconcile at the moment of its write.  The one exception is the create of a Workflow whose
    Project is deleted after it was looked up. */
module Atomicity {
  import opened Bytes
  import opened Api
  import opened Table
  import opened Status
  import opened Reconciler
  import opened ControlPlane
  import opened Lineages
  import H = Handlers

  /** What happens at once: a whole create, update or delete handler, the insert of a Workflow without a
      look at its Project, a listing and reconcile of one row, or nothing. */
  datatype Atomic =
    | CreateNow(tenant: Str, request: Resource, uid: string, now: Time)
    | InsertOrphan(tenant: Str, request: Resource, uid: string, now: Time)
    | UpdateNow(tenant: Str, request: Resource)
    | DeleteNow(tenant: Str, target: H.Target)
    | ReconcileNow(key: Key, readings: Readings)
    | Idle

  /** What a caller hears, if anything. */
  type Reply = Option<Result<Resource, Code>>

  function Heard(effect: (Rows, Result<Resource, Code>)): (Rows, Reply) {
    (effect.0, Some(effect.1))
  }

  function AtomicStep(t: Rows, tenants: set<Str>, a: Atomic): (Rows, Reply) {
    match a
    case CreateNow(tenant, request, uid, now) => Heard(H.Create(t, tenants, tenant, request, uid, now))
    case InsertOrphan(tenant, request, uid, now) => Heard(H.FinishCreate(t, tenants, tenant, request, uid, now))
    case UpdateNow(tenant, request) => Heard(H.Update(t, tenant, request))
    case DeleteNow(tenant, target) => Heard(H.Delete(t, tenant, target))
    case ReconcileNow(key, readings) =>
      (if key in t then ReconcileRecord(t, ToRecord(t[key]), readings) else t, None)
    case Idle => (t, None)
  }

  /** The table after a run of atomic steps, and what was answered along the way. */
  function AtomicExec(t: Rows, tenants: set<Str>, run: seq<Atomic>): (Rows, seq<Reply>)
    decreases |run|
  {
    if run == [] then (t, [])
    else
      var (t', reply) := AtomicStep(t, tenants, run[0]);
      var (t'', replies) := AtomicExec(t', tenants, run[1..]);
      (t'', [reply] + replies)
  }

  /** What the caller hears in one step of the machine: a handler answers when its first half refuses,
      or else at the end of its second half. */
  function ReplyOf(s: State, a: Action): Reply {
    match a
    case BeginCreate(op, tenant, request) =>
      var begun := H.BeginCreate(s.table, tenant, request);
      if begun.Err? then Some(Err(begun.error)) else None
    case FinishCreate(op, uid, now) =>
      if !IsCreating(s, op) then None
      else var p := s.pending[op]; Some(H.FinishCreate(s.table, s.tenants, p.tenant, p.request, uid, now).1)
    case BeginUpdate(op, tenant, request) =>
      var read := H.BeginUpdate(s.table, tenant, request);
      if read.Err? then Some(Err(read.error)) else None
    case FinishUpdate(op) =>
      if !IsUpdating(s, op) then None
      else var p := s.pending[op]; Some(H.FinishUpdate(s.table, p.tenant, p.request, p.current).1)
    case Delete(tenant, target) => Some(H.Delete(s.table, tenant, target).1)
    case _ => None
  }

  function Replies(s: State, run: seq<Action>): seq<Reply>
    decreases |run|
  {
    if run == [] then [] else [ReplyOf(s, run[0])] + Replies(Step(s, run[0]), run[1..])
  }

  /** The Project of a Workflow about to be stored is still there. */
  predicate ProjectStands(t: Rows, tenant: Str, request: Resource) {
    request.Workflow? ==> H.ProjectKey(tenant, H.MetaOf(request).project) in t
  }

  /** Where each action takes effect: a first half that refuses as the whole handler, any other and
      listings not at all, second halves whole, and a reconcile of a listed record only if the row is
      still the one that was listed. */
  function Linearized(s: State, a: Action): Atomic {
    match a
    case BeginCreate(op, tenant, request) =>
      if H.BeginCreate(s.table, tenant, request).Err? then CreateNow(tenant, request, "", 0) else Idle
    case FinishCreate(op, uid, now) =>
      if !IsCreating(s, op) then Idle
      else
        var p := s.pending[op];
        if ProjectStands(s.table, p.tenant, p.request) then CreateNow(p.tenant, p.request, uid, now)
        else InsertOrphan(p.tenant, p.request, uid, now)
    case BeginUpdate(op, tenant, request) =>
      if H.BeginUpdate(s.table, tenant, request).Err? then UpdateNow(tenant, request) else Idle
    case FinishUpdate(op) =>
      if IsUpdating(s, op) then UpdateNow(s.pending[op].tenant, s.pending[op].request) else Idle
    case Delete(tenant, target) => DeleteNow(tenant, target)
    case Reconcile(key, readings) =>
      if IsCurrent(s, key) then ReconcileNow(key, readings) else Idle
    case _ => Idle
  }

  function LinearizedRun(s: State, run: seq<Action>): seq<Atomic>
    decreases |run|
  {
    if run == [] then [] else [Linearized(s, run[0])] + LinearizedRun(Step(s, run[0]), run[1..])
  }

  // ----- creates -----

  /** The second half of a create is the whole handler at once exactly when the Project of the Workflow
      is still there: otherwise the whole handler would refuse, with an answer that the second half
      never gives. */
  lemma CreateIsAtomicExactly(s: State, op: int, uid: string, now: Time)
    requires Inv(s) && IsCreating(s, op)
    ensures var p := s.pending[op];
            H.FinishCreate(s.table, s.tenants, p.tenant, p.request, uid, now)
              == H.Create(s.table, s.tenants, p.tenant, p.request, uid, now)
            <==> ProjectStands(s.table, p.tenant, p.request)
  {
  }

  /** A stored Workflow is an orphan from the start exactly when its Project was gone. */
  lemma CreatedOrphanExactly(s: State, op: int, uid: string, now: Time)
    requires IsCreating(s, op) && s.pending[op].request.Workflow?
    ensures var p := s.pending[op];
            ProjectStands(Step(s, FinishCreate(op, uid, now)).table, p.tenant, p.request) <==>
              ProjectStands(s.table, p.tenant, p.request)
  {
    KindsDiffer();
  }

  /** A row stays as long as no delete names its key. */
  lemma {:induction false} RowStays(s: State, run: seq<Action>, key: Key)
    requires key in s.table
    requires forall a :: a in run && a.Delete? ==> H.TargetKey(a.tenant, a.target) != key
    ensures key in Exec(s, run).table
    decreases |run|
  {
    if run == [] {
    } else {
      assert run[0] in run && forall a :: a in run[1..] ==> a in run;
      RowSurvives(s, run[0], key);
      RowStays(Step(s, run[0]), run[1..], key);
    }
  }

  lemma RowSurvives(s: State, a: Action, key: Key)
    requires key in s.table && (a.Delete? ==> H.TargetKey(a.tenant, a.target) != key)
    ensures key in Step(s, a).table
  {
    match a
    case FinishCreate(op, uid, now) =>
      if IsCreating(s, op) {
        assert key in CreatedTable(s, op, uid, now);
      }
    case FinishUpdate(op) =>
      if IsUpdating(s, op) {
        assert key in UpdatedTable(s, op);
      }
    case Reconcile(k, readings) =>
      if k in s.snapshot {
        assert key in ReconciledTable(s, k, readings);
      }
    case _ =>
  }

  /** With anything but a delete of its Project between its two halves, a create is the whole handler at
      the moment of its write. */
  lemma CreateIsAtomic(s: State, begin: Action, meanwhile: seq<Action>, uid: string, now: Time)
    requires Inv(s) && begin.BeginCreate? && H.BeginCreate(s.table, begin.tenant, begin.request).Ok?
    requires IsRun(AnyRun, Step(s, begin), meanwhile)
    requires begin.request.Workflow? ==>
               forall a :: a in meanwhile && a.Delete? ==>
                 H.TargetKey(a.tenant, a.target) != H.ProjectKey(begin.tenant, H.MetaOf(begin.request).project)
    requires var s' := Exec(Step(s, begin), meanwhile);
             begin.op in s'.pending && s'.pending[begin.op] == Creating(begin.tenant, begin.request)
    ensures var s' := Exec(Step(s, begin), meanwhile);
            H.FinishCreate(s'.table, s'.tenants, begin.tenant, begin.request, uid, now)
              == H.Create(s'.table, s'.tenants, begin.tenant, begin.request, uid, now)
  {
    StepKeepsInv(s, begin);
    RunKeepsInv(AnyRun, Step(s, begin), meanwhile);
    if begin.request.Workflow? {
      RowStays(Step(s, begin), meanwhile, H.ProjectKey(begin.tenant, H.MetaOf(begin.request).project));
    }
    CreateIsAtomicExactly(Exec(Step(s, begin), meanwhile), begin.op, uid, now);
  }

  // ----- updates -----

  /** The second half of an honest update on an undisturbed incarnation stores and answers exactly
      what the whole handler would if it ran, from its read on, at the moment of the write: the same
      table, and the same object or error. */
  lemma UpdateIsAtomic(d: Discipline, s: State, op: int)
    requires HonestInv(d, s) && IsUpdating(s, op) && SameIncarnation(s, FinishUpdate(op))
    ensures var p := s.pending[op];
            H.FinishUpdate(s.table, p.tenant, p.request, p.current) == H.Update(s.table, p.tenant, p.request)
  {
    var p := s.pending[op];
    var key := p.current.key;
    UpdateStores(s, op);
    TokenIsText(s.history[p.current.uid], p.request, p.current);
    if key in s.table {
      RowIsOfKind(s, key);
      if Wrote(s, key, UpdatedTable(s, op)) {
        HonestUpdateReplacesWhatItRead(d, s, op);
      }
    }
  }

  /** The spec has not changed since the handler read, or it has changed once, to the spec that the
      client is writing. */
  predicate CountsRight(row: Row, request: Resource, current: Record) {
    || row.generation == current.generation
    || (row.generation == current.generation + 1 && SameSpec(row.data, request))
  }

  /** Without trust in the token, and on any incarnation: a write that lands is the whole handler at once
      exactly when the generation computed from the read is the one computed from the current row. */
  lemma UpdateIsAtomicByCount(s: State, op: int)
    requires Inv(s) && IsUpdating(s, op) && Wrote(s, s.pending[op].current.key, UpdatedTable(s, op))
    ensures s.pending[op].current.key in s.table
    ensures var p, row := s.pending[op], s.table[s.pending[op].current.key];
            H.FinishUpdate(s.table, p.tenant, p.request, p.current) == H.Update(s.table, p.tenant, p.request) <==>
              H.NextGeneration(p.current, p.request) == H.NextGeneration(ToRecord(row), p.request)
  {
    var p := s.pending[op];
    UpdateStores(s, op);
    var row := s.table[p.current.key];
    DecimalRoundTrip(row.rv);
    RowIsOfKind(s, p.current.key);
    var here := H.RecordForUpdate(p.tenant, p.request, p.current);
    var there := H.RecordForUpdate(p.tenant, p.request, ToRecord(row));
    assert here.key == there.key == row.key;
    assert here.generation == H.NextGeneration(p.current, p.request);
    assert there.generation == H.NextGeneration(ToRecord(row), p.request);
  }

  /** On the incarnation that was read that is so exactly when the generations of the row and of the read,
      and the spec of the row, make the count come out right. */
  lemma UpdateIsAtomicExactly(s: State, op: int)
    requires Inv(s) && IsUpdating(s, op) && Wrote(s, s.pending[op].current.key, UpdatedTable(s, op))
    requires var p := s.pending[op];
             && p.current.key in s.table && s.table[p.current.key].uid == p.current.uid
             && GenerationsOk(s.history[p.current.uid])
    ensures var p := s.pending[op];
            H.FinishUpdate(s.table, p.tenant, p.request, p.current) == H.Update(s.table, p.tenant, p.request) <==>
              CountsRight(s.table[p.current.key], p.request, p.current)
  {
    var p := s.pending[op];
    UpdateIsAtomicByCount(s, op);
    SameCount(s, p.request, p.current);
  }

  /** A write that lands keeps the count of spec changes in the lineage it lands on, whichever that is,
      under the same condition as it is atomic. */
  lemma UpdateCountsByCount(s: State, op: int)
    requires Inv(s) && IsUpdating(s, op) && Wrote(s, s.pending[op].current.key, UpdatedTable(s, op))
    requires var key := s.pending[op].current.key;
             key in s.table && s.table[key].uid in s.history && GenerationsOk(s.history[s.table[key].uid])
    ensures var p, row := s.pending[op], s.table[s.pending[op].current.key];
            GenerationsOk(s.history[row.uid] + [UpdatedTable(s, op)[p.current.key]]) <==>
              H.NextGeneration(p.current, p.request) == H.NextGeneration(ToRecord(row), p.request)
  {
    var p := s.pending[op];
    var row := s.table[p.current.key];
    UpdateStores(s, op);
    RowIsOfKind(s, p.current.key);
    StampedVersion(row, p.tenant, p.request);
    var next := UpdatedTable(s, op)[p.current.key];
    assert next.generation == H.NextGeneration(p.current, p.request) && SameSpec(next.data, p.request);
    AppendGenerationExactly(s.history[row.uid], next);
  }

  /** On the incarnation that was read that is, again, when the count comes out right. */
  lemma UpdateCountsExactly(s: State, op: int)
    requires Inv(s) && IsUpdating(s, op) && Wrote(s, s.pending[op].current.key, UpdatedTable(s, op))
    requires var p := s.pending[op];
             && p.current.key in s.table && s.table[p.current.key].uid == p.current.uid
             && GenerationsOk(s.history[p.current.uid])
    ensures var p := s.pending[op];
            GenerationsOk(s.history[p.current.uid] + [UpdatedTable(s, op)[p.current.key]]) <==>
              CountsRight(s.table[p.current.key], p.request, p.current)
  {
    var p := s.pending[op];
    UpdateCountsByCount(s, op);
    SameCount(s, p.request, p.current);
  }

  lemma AppendGenerationExactly(h: seq<Row>, row: Row)
    requires GenerationsOk(h)
    ensures GenerationsOk(h + [row]) <==>
              row.generation == Latest(h).generation + (if SameSpec(Latest(h).data, row.data) then 0 else 1)
  {
    assert (h + [row])[|h|] == row && (h + [row])[|h| - 1] == Latest(h);
    if row.generation == Latest(h).generation + (if SameSpec(Latest(h).data, row.data) then 0 else 1) {
      AppendGeneration(h, row);
    }
  }

  /** When a generation computed from an earlier version is the one computed from the current row. */
  lemma SameCount(s: State, request: Resource, current: Record)
    requires Inv(s) && WasRead(s, current) && current.key in s.table && s.table[current.key].uid == current.uid
    requires GenerationsOk(s.history[current.uid]) && KindOf(request) == KindOf(current.data)
    ensures var row := s.table[current.key];
            (H.NextGeneration(current, request) == H.NextGeneration(ToRecord(row), request))
              <==> CountsRight(row, request, current)
  {
    var h := s.history[current.uid];
    var j :| 0 <= j < |h| && current == ToRecord(h[j]);
    OneKind(current.uid, h);
    SameCountAlong(h, j, request);
  }

  lemma SameCountAlong(h: seq<Row>, j: int, request: Resource)
    requires GenerationsOk(h) && 0 <= j < |h| && KindOf(request) == KindOf(h[0].data)
    requires forall k :: 0 <= k < |h| ==> KindOf(h[k].data) == KindOf(h[0].data)
    ensures (H.NextGeneration(ToRecord(h[j]), request) == H.NextGeneration(ToRecord(Latest(h)), request))
              <==> CountsRight(Latest(h), request, ToRecord(h[j]))
  {
    var n := |h| - 1;
    GenerationsAscend(h, j, n);
    if h[n].generation == h[j].generation + 1 {
      OneChangeDiffers(h, j, n);
    }
  }

  lemma TokenIsText(h: seq<Row>, request: Resource, current: Record)
    requires TokenNotAhead(h, request, current)
    ensures H.MetaOf(request).resourceVersion != ""
  {
  }

  lemma RowIsOfKind(s: State, key: Key)
    requires Inv(s) && key in s.table
    ensures KindOf(s.table[key].data) == key.kind && H.ColumnsAgree(s.table[key])
  {
  }

  // ----- reconciles -----

  /** A reconcile of a listed record either reconciles the current row or changes nothing. */
  lemma ReconcileIsAtomic(s: State, key: Key, readings: Readings)
    requires Inv(s) && key in s.snapshot && SameIncarnation(s, Reconcile(key, readings))
    ensures ReconciledTable(s, key, readings)
              == AtomicStep(s.table, s.tenants, Linearized(s, Reconcile(key, readings))).0
  {
    LinearizedReconcile(s, key, readings);
    if !IsCurrent(s, key) {
      StaleChangesNothing(s, key, readings);
    }
  }

  lemma LinearizedReconcile(s: State, key: Key, readings: Readings)
    requires key in s.snapshot
    ensures AtomicStep(s.table, s.tenants, Linearized(s, Reconcile(key, readings))).0
              == if IsCurrent(s, key) then ReconciledTable(s, key, readings) else s.table
  {
  }

  /** The row is the one that was listed. */
  predicate IsCurrent(s: State, key: Key) {
    key in s.snapshot && key in s.table && s.snapshot[key] == ToRecord(s.table[key])
  }

  lemma StaleChangesNothing(s: State, key: Key, readings: Readings)
    requires Inv(s) && key in s.snapshot && SameIncarnation(s, Reconcile(key, readings)) && !IsCurrent(s, key)
    ensures ReconciledTable(s, key, readings) == s.table
  {
    if Wrote(s, key, ReconciledTable(s, key, readings)) {
      ReconcilerOverwritesWhatItListed(s, key, readings);
    }
    UnwrittenIsUnchanged(s, key, readings);
  }

  lemma UnwrittenIsUnchanged(s: State, key: Key, readings: Readings)
    requires Inv(s) && key in s.snapshot && !Wrote(s, key, ReconciledTable(s, key, readings))
    ensures ReconciledTable(s, key, readings) == s.table
  {
  }

  // ----- every step and every run -----

  /** One step of the machine and its linearization have the same table and the same reply. */
  ghost predicate StepAgrees(s: State, a: Action) {
    (Step(s, a).table, ReplyOf(s, a)) == AtomicStep(s.table, s.tenants, Linearized(s, a))
  }

  lemma FinishUpdateStepIsAtomic(d: Discipline, s: State, op: int)
    requires HonestInv(d, s) && SameIncarnation(s, FinishUpdate(op))
    ensures StepAgrees(s, FinishUpdate(op))
  {
    if IsUpdating(s, op) {
      UpdateIsAtomic(d, s, op);
    }
  }

  lemma FinishCreateStepIsAtomic(s: State, a: Action)
    requires Inv(s) && a.FinishCreate?
    ensures StepAgrees(s, a)
  {
    if IsCreating(s, a.op) {
      CreateIsAtomicExactly(s, a.op, a.uid, a.now);
    }
  }

  lemma ReconcileStepIsAtomic(s: State, key: Key, readings: Readings)
    requires Inv(s) && SameIncarnation(s, Reconcile(key, readings))
    ensures StepAgrees(s, Reconcile(key, readings))
  {
    if key in s.snapshot {
      ReconcileIsAtomic(s, key, readings);
      assert Step(s, Reconcile(key, readings)).table == ReconciledTable(s, key, readings);
    }
  }

  lemma OtherStepIsAtomic(s: State, a: Action)
    requires !a.FinishCreate? && !a.FinishUpdate? && !a.Reconcile?
    ensures StepAgrees(s, a)
  {
  }

  lemma StepKeepsTenants(s: State, a: Action)
    ensures Step(s, a).tenants == s.tenants
  {
  }

  lemma StepIsAtomic(d: Discipline, s: State, a: Action)
    requires HonestInv(d, s) && TrustsTokens(d) && Allowed(d, s, a)
    ensures StepAgrees(s, a)
  {
    if a.FinishUpdate? {
      FinishUpdateStepIsAtomic(d, s, a.op);
    } else if a.FinishCreate? {
      FinishCreateStepIsAtomic(s, a);
    } else if a.Reconcile? {
      ReconcileStepIsAtomic(s, a.key, a.readings);
    } else {
      OtherStepIsAtomic(s, a);
    }
  }

  /** Atomicity.  The table after any run of clients with honest tokens, the reconciler and deletes,
      interleaved in any way, and every answer given on the way, are those of the run in which every
      handler and every reconcile happens at once, but for creates of Workflows whose Project is gone. */
  lemma {:induction false} RunIsAtomic(d: Discipline, s: State, run: seq<Action>)
    requires HonestInv(d, s) && TrustsTokens(d) && IsRun(d, s, run)
    ensures (Exec(s, run).table, Replies(s, run)) == AtomicExec(s.table, s.tenants, LinearizedRun(s, run))
    decreases |run|
  {
    if run == [] {
    } else {
      StepIsAtomic(d, s, run[0]);
      StepKeepsTenants(s, run[0]);
      StepKeepsHonest(d, s, run[0]);
      RunIsAtomic(d, Step(s, run[0]), run[1..]);
      var atomic := LinearizedRun(s, run);
      assert atomic[0] == Linearized(s, run[0]) && atomic[1..] == LinearizedRun(Step(s, run[0]), run[1..]);
    }
  }

  lemma RunFromStartIsAtomic(d: Discipline, tenants: set<Str>, run: seq<Action>)
    requires TrustsTokens(d) && IsRun(d, Init(tenants), run)
    ensures var s := Init(tenants);
            (Exec(s, run).table, Replies(s, run)) == AtomicExec(map[], tenants, LinearizedRun(s, run))
  {
    InitInv(tenants);
    RunIsAtomic(d, Init(tenants), run);
  }

  predicate OnlyWholeHandlers(run: seq<Atomic>) {
    forall a :: a in run ==> !a.InsertOrphan?
  }

  predicate DeletesNoProject(run: seq<Action>) {
    forall a :: a in run && a.Delete? ==> a.target.kind != KIND_PROJECT
  }

  /** The Projects of all Workflows whose create is pending are there. */
  ghost predicate ProjectsStand(s: State) {
    forall op :: IsCreating(s, op) ==> ProjectStands(s.table, s.pending[op].tenant, s.pending[op].request)
  }

  lemma StepKeepsProjects(s: State, a: Action)
    requires ProjectsStand(s) && (a.Delete? ==> a.target.kind != KIND_PROJECT)
    ensures ProjectsStand(Step(s, a)) && !Linearized(s, a).InsertOrphan?
  {
    forall op | IsCreating(Step(s, a), op)
      ensures ProjectStands(Step(s, a).table, Step(s, a).pending[op].tenant, Step(s, a).pending[op].request)
    {
      if op in s.pending && s.pending[op] == Step(s, a).pending[op] {
        var p := s.pending[op];
        if p.request.Workflow? {
          RowSurvives(s, a, H.ProjectKey(p.tenant, H.MetaOf(p.request).project));
        }
      }
    }
  }

  /** In a run that deletes no Project there is no exception. */
  lemma {:induction false} OnlyProjectDeletesBreakCreates(s: State, run: seq<Action>)
    requires ProjectsStand(s) && DeletesNoProject(run)
    ensures OnlyWholeHandlers(LinearizedRun(s, run))
    decreases |run|
  {
    if run == [] {
    } else {
      assert run[0] in run && forall a :: a in run[1..] ==> a in run;
      StepKeepsProjects(s, run[0]);
      OnlyProjectDeletesBreakCreates(Step(s, run[0]), run[1..]);
    }
  }
}
