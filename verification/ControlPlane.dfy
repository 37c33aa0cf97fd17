/** The control plane as one state machine: API handlers, each cut between its read and its write,
    and the reconciler, cut between its listing and each of its writes, over one table. */
module ControlPlane {
  import opened Bytes
  import opened Api
  import opened Table
  import opened Status
  import opened Reconciler
  import H = Handlers

  /** A handler between its read and its write. */
  datatype Pending =
    | Creating(tenant: Str, request: Resource)
    | Updating(tenant: Str, request: Resource, current: Record)

  /** `snapshot` holds the listed records the reconciler has yet to visit.  The last three fields are
      history: every version of every row ever stored, by uid and in order, and the number of
      successful writes of the handlers and of the reconciler. */
  datatype State = State(
    table: Rows,
    tenants: set<Str>,
    pending: map<int, Pending>,
    snapshot: map<Key, Record>,
    history: map<string, seq<Row>>,
    apiWrites: nat,
    reconcilerWrites: nat)

  datatype Action =
    | BeginCreate(op: int, tenant: Str, request: Resource)
    | FinishCreate(op: int, uid: string, now: Time)
    | BeginUpdate(op: int, tenant: Str, request: Resource)
    | FinishUpdate(op: int)
    | Delete(tenant: Str, target: H.Target)
    | ListWorkflows
    | Reconcile(key: Key, readings: Readings)

  function Init(tenants: set<Str>): State {
    State(map[], tenants, map[], map[], map[], 0, 0)
  }

  // ----- steps -----

  function Recorded(history: map<string, seq<Row>>, row: Row): map<string, seq<Row>> {
    history[row.uid := (if row.uid in history then history[row.uid] else []) + [row]]
  }

  /** Did the store operation on this key, which gave the table t, store a row? */
  predicate Wrote(s: State, key: Key, t: Rows) {
    key in t && (key in s.table ==> t[key] != s.table[key])
  }

  /** The state after a store operation on this key gave this table. */
  function Committed(s: State, key: Key, t: Rows): State {
    s.(table := t, history := if Wrote(s, key, t) then Recorded(s.history, t[key]) else s.history)
  }

  function AfterApiWrite(s: State, op: int, key: Key, t: Rows): State {
    Committed(s, key, t).(pending := s.pending - {op},
                          apiWrites := s.apiWrites + if Wrote(s, key, t) then 1 else 0)
  }

  function AfterReconcilerWrite(s: State, key: Key, t: Rows): State {
    Committed(s, key, t).(snapshot := s.snapshot - {key},
                          reconcilerWrites := s.reconcilerWrites + if Wrote(s, key, t) then 1 else 0)
  }

  predicate IsCreating(s: State, op: int) {
    op in s.pending && s.pending[op].Creating?
  }

  predicate IsUpdating(s: State, op: int) {
    op in s.pending && s.pending[op].Updating?
  }

  function CreatedTable(s: State, op: int, uid: string, now: Time): Rows
    requires IsCreating(s, op)
  {
    var p := s.pending[op];
    H.FinishCreate(s.table, s.tenants, p.tenant, p.request, uid, now).0
  }

  function UpdatedTable(s: State, op: int): Rows
    requires IsUpdating(s, op)
  {
    var p := s.pending[op];
    H.FinishUpdate(s.table, p.tenant, p.request, p.current).0
  }

  function ReconciledTable(s: State, key: Key, readings: Readings): Rows
    requires key in s.snapshot
  {
    ReconcileRecord(s.table, s.snapshot[key], readings)
  }

  function Step(s: State, a: Action): State {
    match a
    case BeginCreate(op, tenant, request) =>
      if H.BeginCreate(s.table, tenant, request).Err? then s
      else s.(pending := s.pending[op := Creating(tenant, request)])
    case FinishCreate(op, uid, now) =>
      if !IsCreating(s, op) then s
      else
        var p := s.pending[op];
        AfterApiWrite(s, op, H.KeyFor(p.tenant, p.request), CreatedTable(s, op, uid, now))
    case BeginUpdate(op, tenant, request) =>
      var read := H.BeginUpdate(s.table, tenant, request);
      if read.Err? then s else s.(pending := s.pending[op := Updating(tenant, request, read.value)])
    case FinishUpdate(op) =>
      if !IsUpdating(s, op) then s
      else AfterApiWrite(s, op, s.pending[op].current.key, UpdatedTable(s, op))
    case Delete(tenant, target) =>
      Committed(s, H.TargetKey(tenant, target), H.Delete(s.table, tenant, target).0)
    case ListWorkflows =>
      s.(snapshot := map k | k in s.table && IsReconciled(k) :: ToRecord(s.table[k]))
    case Reconcile(key, readings) =>
      if key !in s.snapshot then s
      else AfterReconcilerWrite(s, key, ReconciledTable(s, key, readings))
  }

  // ----- what is assumed of uids, deletes and clients -----

  /** Uids are never reused: they are random, and unique among the rows. */
  predicate FreshUid(s: State, a: Action) {
    a.FinishCreate? ==> a.uid !in s.history
  }

  /** The row about to be written, if there is one, is of the incarnation that was read: it was not
      deleted and created anew in between. */
  predicate SameIncarnation(s: State, a: Action) {
    match a
    case FinishUpdate(op) =>
      IsUpdating(s, op) && s.pending[op].current.key in s.table ==>
        s.table[s.pending[op].current.key].uid == s.pending[op].current.uid
    case Reconcile(key, _) =>
      key in s.snapshot && key in s.table ==> s.table[key].uid == s.snapshot[key].uid
    case _ => true
  }

  /** The token is the version of a row of this lineage. */
  predicate HonestToken(h: seq<Row>, request: Resource) {
    exists i :: 0 <= i < |h| && H.MetaOf(request).resourceVersion == Decimal(h[i].rv)
  }

  /** The status is absent, or some version of this lineage bears it out: the version carries the same
      status, or a later generation than the status has observed, or the spec and generation that the
      status reports on. */
  predicate HonestStatus(h: seq<Row>, request: Resource) {
    request.Workflow? && request.workflowStatus.Some? ==>
      exists i :: 0 <= i < |h| && h[i].data.Workflow? && BearsOut(h[i], request.workflowStatus.value)
  }

  predicate BearsOut(row: Row, status: WorkflowStatus)
    requires row.data.Workflow?
  {
    || row.data.workflowStatus == Some(status)
    || status.observedGeneration < row.generation
    || Reports(status, row.data.workflowSpec, row.generation)
  }

  /** An update carries a version of the incarnation it updates that the server had stored, and so may
      have returned, before the handler reads; and, of a client whose statuses can be trusted too, a
      status, if any, that is borne out by then. */
  predicate HonestRequest(d: Discipline, s: State, a: Action) {
    a.BeginUpdate? && H.KeyFor(a.tenant, a.request) in s.table ==>
      var uid := s.table[H.KeyFor(a.tenant, a.request)].uid;
      && uid in s.history
      && HonestToken(s.history[uid], a.request)
      && (d == HonestClients ==> HonestStatus(s.history[uid], a.request))
  }

  /** Runs of any clients, runs without a delete and re-creation under a pending write, among these the
      runs of clients whose tokens are honest, and of clients whose tokens and statuses are. */
  datatype Discipline = AnyRun | OneIncarnation | HonestTokens | HonestClients

  predicate TrustsTokens(d: Discipline) {
    d == HonestTokens || d == HonestClients
  }

  predicate Allowed(d: Discipline, s: State, a: Action) {
    && FreshUid(s, a)
    && (d != AnyRun ==> SameIncarnation(s, a))
    && (TrustsTokens(d) ==> HonestRequest(d, s, a))
  }

  function Exec(s: State, run: seq<Action>): State
    decreases |run|
  {
    if run == [] then s else Exec(Step(s, run[0]), run[1..])
  }

  predicate IsRun(d: Discipline, s: State, run: seq<Action>)
    decreases |run|
  {
    run == [] || (Allowed(d, s, run[0]) && IsRun(d, Step(s, run[0]), run[1..]))
  }

  // ----- the invariant of every run -----

  /** The versions of one row, in order: version i has counter i + 1, and identity, key and creation
      time never change. */
  ghost predicate Lineage(uid: string, h: seq<Row>) {
    && h != []
    && forall i :: 0 <= i < |h| ==>
         && h[i].uid == uid
         && h[i].rv == i + 1
         && h[i].key == h[0].key
         && h[i].createdAt == h[0].createdAt
         && H.ColumnsAgree(h[i])
  }

  function Latest(h: seq<Row>): Row
    requires h != []
  {
    h[|h| - 1]
  }

  ghost predicate IsVersion(h: seq<Row>, rec: Record) {
    exists i :: 0 <= i < |h| && rec == ToRecord(h[i])
  }

  ghost predicate WasRead(s: State, rec: Record) {
    rec.uid in s.history && IsVersion(s.history[rec.uid], rec)
  }

  ghost predicate LineagesOk(s: State) {
    forall uid :: uid in s.history ==> Lineage(uid, s.history[uid])
  }

  ghost predicate TableOk(s: State) {
    forall k :: k in s.table ==>
      && s.table[k].key == k
      && s.table[k].uid in s.history
      && s.history[s.table[k].uid] != []
      && s.table[k] == Latest(s.history[s.table[k].uid])
  }

  ghost predicate PendingOk(s: State) {
    forall op :: op in s.pending ==>
      && H.Named(s.pending[op].request)
      && (s.pending[op].Updating? ==>
            && WasRead(s, s.pending[op].current)
            && s.pending[op].current.key == H.KeyFor(s.pending[op].tenant, s.pending[op].request)
            && KindOf(s.pending[op].current.data) == KindOf(s.pending[op].request))
  }

  ghost predicate SnapshotOk(s: State) {
    forall k :: k in s.snapshot ==> IsReconciled(k) && s.snapshot[k].key == k && WasRead(s, s.snapshot[k])
  }

  ghost predicate Inv(s: State) {
    LineagesOk(s) && TableOk(s) && PendingOk(s) && SnapshotOk(s)
  }

  /** History is only ever appended to. */
  ghost predicate Grows(s: State, s': State) {
    forall uid :: uid in s.history ==> uid in s'.history && s.history[uid] <= s'.history[uid]
  }

  lemma GrowsTransitive(s0: State, s1: State, s2: State)
    requires Grows(s0, s1) && Grows(s1, s2)
    ensures Grows(s0, s2)
  {
  }

  /** What was read and is still held stays a version, as history grows. */
  lemma ReadsSurvive(s: State, s': State)
    requires PendingOk(s) && SnapshotOk(s) && Grows(s, s')
    requires forall op :: op in s'.pending ==> op in s.pending && s'.pending[op] == s.pending[op]
    requires forall k :: k in s'.snapshot ==> k in s.snapshot && s'.snapshot[k] == s.snapshot[k]
    ensures PendingOk(s') && SnapshotOk(s')
  {
  }

  // ----- what a write does -----

  /** The operation stored a first version of this key. */
  ghost predicate Inserts(s: State, key: Key, t: Rows) {
    && key !in s.table && key in t && t == s.table[key := t[key]]
    && t[key].key == key && t[key].rv == 1 && t[key].uid !in s.history && H.ColumnsAgree(t[key])
  }

  /** The operation stored the next version of this key. */
  ghost predicate Replaces(s: State, key: Key, t: Rows) {
    && key in s.table && key in t && t == s.table[key := t[key]]
    && var row := s.table[key];
       && t[key] == row.(rv := row.rv + 1, generation := t[key].generation, labels := t[key].labels,
                         data := t[key].data)
       && H.ColumnsAgree(t[key])
  }

  ghost predicate Effect(s: State, key: Key, t: Rows) {
    t == s.table || Inserts(s, key, t) || Replaces(s, key, t)
  }

  lemma InsertKeepsTable(s: State, key: Key, t: Rows)
    requires LineagesOk(s) && TableOk(s) && Inserts(s, key, t)
    ensures Committed(s, key, t).history == s.history[t[key].uid := [t[key]]]
    ensures LineagesOk(Committed(s, key, t)) && TableOk(Committed(s, key, t))
  {
    assert [] + [t[key]] == [t[key]];
  }

  lemma InsertKeepsInv(s: State, key: Key, t: Rows)
    requires Inv(s) && Inserts(s, key, t)
    ensures Inv(Committed(s, key, t)) && Grows(s, Committed(s, key, t))
  {
    InsertKeepsTable(s, key, t);
    ReadsSurvive(s, Committed(s, key, t));
  }

  lemma ReplaceKeepsTable(s: State, key: Key, t: Rows)
    requires LineagesOk(s) && TableOk(s) && Replaces(s, key, t)
    ensures Wrote(s, key, t)
    ensures Committed(s, key, t).history == s.history[t[key].uid := s.history[t[key].uid] + [t[key]]]
    ensures LineagesOk(Committed(s, key, t)) && TableOk(Committed(s, key, t))
  {
  }

  lemma ReplaceKeepsInv(s: State, key: Key, t: Rows)
    requires Inv(s) && Replaces(s, key, t)
    ensures Inv(Committed(s, key, t)) && Grows(s, Committed(s, key, t))
  {
    ReplaceKeepsTable(s, key, t);
    ReadsSurvive(s, Committed(s, key, t));
  }

  lemma WriteKeepsInv(s: State, key: Key, t: Rows)
    requires Inv(s) && Effect(s, key, t)
    ensures Inv(Committed(s, key, t)) && Grows(s, Committed(s, key, t))
  {
    if t == s.table {
      ReadsSurvive(s, Committed(s, key, t));
    } else if Inserts(s, key, t) {
      InsertKeepsInv(s, key, t);
    } else {
      ReplaceKeepsInv(s, key, t);
    }
  }

  lemma ApiWriteKeepsInv(s: State, op: int, key: Key, t: Rows)
    requires Inv(s) && Effect(s, key, t)
    ensures Inv(AfterApiWrite(s, op, key, t)) && Grows(s, AfterApiWrite(s, op, key, t))
  {
    WriteKeepsInv(s, key, t);
    ReadsSurvive(Committed(s, key, t), AfterApiWrite(s, op, key, t));
  }

  lemma ReconcilerWriteKeepsInv(s: State, key: Key, t: Rows)
    requires Inv(s) && Effect(s, key, t)
    ensures Inv(AfterReconcilerWrite(s, key, t)) && Grows(s, AfterReconcilerWrite(s, key, t))
  {
    WriteKeepsInv(s, key, t);
    ReadsSurvive(Committed(s, key, t), AfterReconcilerWrite(s, key, t));
  }

  // ----- what the handlers and the reconciler write -----

  lemma CreateEffect(s: State, op: int, uid: string, now: Time)
    requires Inv(s) && IsCreating(s, op) && uid !in s.history
    ensures var p := s.pending[op]; Effect(s, H.KeyFor(p.tenant, p.request), CreatedTable(s, op, uid, now))
  {
  }

  /** The columns an update lifts are those of the body it stores. */
  lemma UpdateEffect(s: State, op: int)
    requires Inv(s) && IsUpdating(s, op)
    ensures var key := s.pending[op].current.key;
            var t := UpdatedTable(s, op);
            Effect(s, key, t) && (t != s.table ==> Replaces(s, key, t))
  {
    var p := s.pending[op];
    var rec := H.RecordForUpdate(p.tenant, p.request, p.current);
    assert rec.key == H.KeyFor(p.tenant, p.request);
  }

  /** A reconciler write keeps every column and all of the body but the status. */
  lemma ReconcileEffect(s: State, key: Key, readings: Readings)
    requires Inv(s) && key in s.snapshot
    ensures var t := ReconciledTable(s, key, readings);
            Effect(s, key, t) && (t != s.table ==> Replaces(s, key, t))
  {
    var rec := s.snapshot[key];
    VersionColumns(s, rec);
    if DesiredWrite(rec, readings).Some? {
      DesiredWriteKeeps(rec, readings);
    }
  }

  /** The columns of every version that was read agree with its body. */
  lemma VersionColumns(s: State, rec: Record)
    requires LineagesOk(s) && WasRead(s, rec)
    ensures rec.data.metadata.Some? && KindOf(rec.data) == rec.key.kind
    ensures var meta := rec.data.metadata.value;
            && meta.tenantId == rec.key.tenant && meta.project == rec.key.project && meta.name == rec.key.name
            && meta.generation == rec.generation && meta.labels == rec.labels
  {
  }

  // ----- every step -----

  /** The current record of a key is a version of its lineage. */
  lemma CurrentWasRead(s: State, key: Key)
    requires LineagesOk(s) && TableOk(s) && key in s.table
    ensures WasRead(s, ToRecord(s.table[key]))
  {
  }

  /** Holding a handler back that has passed its checks, and read a version, keeps the invariant. */
  lemma HoldKeepsInv(s: State, op: int, p: Pending)
    requires Inv(s) && H.Named(p.request)
    requires p.Updating? ==>
               && WasRead(s, p.current)
               && p.current.key == H.KeyFor(p.tenant, p.request)
               && KindOf(p.current.data) == KindOf(p.request)
    ensures Inv(s.(pending := s.pending[op := p])) && Grows(s, s.(pending := s.pending[op := p]))
  {
  }

  lemma BeginUpdateKeepsInv(s: State, a: Action)
    requires Inv(s) && a.BeginUpdate?
    ensures Inv(Step(s, a)) && Grows(s, Step(s, a))
  {
    var read := H.BeginUpdate(s.table, a.tenant, a.request);
    if read.Ok? {
      CurrentWasRead(s, H.KeyFor(a.tenant, a.request));
      HoldKeepsInv(s, a.op, Updating(a.tenant, a.request, read.value));
    }
  }

  lemma DeleteKeepsInv(s: State, a: Action)
    requires Inv(s) && a.Delete?
    ensures Inv(Step(s, a)) && Grows(s, Step(s, a))
  {
    ReadsSurvive(s, Step(s, a));
  }

  lemma StepKeepsInv(s: State, a: Action)
    requires Inv(s) && FreshUid(s, a)
    ensures Inv(Step(s, a)) && Grows(s, Step(s, a))
  {
    match a
    case BeginCreate(op, tenant, request) =>
      if H.BeginCreate(s.table, tenant, request).Ok? {
        HoldKeepsInv(s, op, Creating(tenant, request));
      }
    case FinishCreate(op, uid, now) =>
      if IsCreating(s, op) {
        var p := s.pending[op];
        CreateEffect(s, op, uid, now);
        ApiWriteKeepsInv(s, op, H.KeyFor(p.tenant, p.request), CreatedTable(s, op, uid, now));
      }
    case BeginUpdate(op, tenant, request) => BeginUpdateKeepsInv(s, a);
    case FinishUpdate(op) =>
      if IsUpdating(s, op) {
        UpdateEffect(s, op);
        ApiWriteKeepsInv(s, op, s.pending[op].current.key, UpdatedTable(s, op));
      }
    case Delete(tenant, target) => DeleteKeepsInv(s, a);
    case ListWorkflows =>
      forall k | k in s.table { CurrentWasRead(s, k); }
    case Reconcile(key, readings) =>
      if key in s.snapshot {
        ReconcileEffect(s, key, readings);
        ReconcilerWriteKeepsInv(s, key, ReconciledTable(s, key, readings));
      }
  }

  lemma InitInv(tenants: set<Str>)
    ensures Inv(Init(tenants))
  {
  }

  lemma {:induction false} RunKeepsInv(d: Discipline, s: State, run: seq<Action>)
    requires Inv(s) && IsRun(d, s, run)
    ensures Inv(Exec(s, run)) && Grows(s, Exec(s, run))
    decreases |run|
  {
    if run == [] {
    } else {
      StepKeepsInv(s, run[0]);
      RunKeepsInv(d, Step(s, run[0]), run[1..]);
      GrowsTransitive(s, Step(s, run[0]), Exec(s, run));
    }
  }
}
