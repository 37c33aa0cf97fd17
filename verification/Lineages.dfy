/** What holds of the versions of every row, over all runs and over the runs of honest clients. */
module Lineages {
  import opened Bytes
  import opened Api
  import opened Table
  import opened Status
  import opened Reconciler
  import opened ControlPlane
  import H = Handlers

  // ----- every run: versions and identities -----

  /** No lost updates.  In every run, a row's counter is one more than the number of updates stored
      since its creation; version i + 1 of an incarnation was stored once, by the i-th of them; uid,
      key and creation time are those it was created with; and no version is ever rewritten. */
  lemma NoLostUpdates(tenants: set<Str>, run: seq<Action>, more: seq<Action>)
    requires IsRun(AnyRun, Init(tenants), run) && IsRun(AnyRun, Exec(Init(tenants), run), more)
    ensures var s := Exec(Init(tenants), run);
            && Grows(s, Exec(s, more))
            && forall k :: k in s.table ==>
                 var row := s.table[k];
                 && row.key == k && row.uid in s.history
                 && var h := s.history[row.uid];
                    && row.rv == |h| && h != [] && row == h[|h| - 1]
                    && forall i :: 0 <= i < |h| ==>
                         h[i].rv == i + 1 && h[i].uid == row.uid && h[i].key == k && h[i].createdAt == row.createdAt
  {
    var s := Exec(Init(tenants), run);
    InitInv(tenants);
    RunKeepsInv(AnyRun, Init(tenants), run);
    RunKeepsInv(AnyRun, s, more);
    forall k | k in s.table ensures Lineage(s.table[k].uid, s.history[s.table[k].uid]) {
    }
  }

  /** In every run, whatever the clients send, the indexed columns of every row, current or past, agree
      with its body, and every current row is found under its own key. */
  lemma ColumnsAlwaysAgree(tenants: set<Str>, run: seq<Action>)
    requires IsRun(AnyRun, Init(tenants), run)
    ensures var s := Exec(Init(tenants), run);
            && H.WellKeyed(s.table)
            && (forall k :: k in s.table ==> H.ColumnsAgree(s.table[k]))
            && (forall uid, i :: uid in s.history && 0 <= i < |s.history[uid]| ==> H.ColumnsAgree(s.history[uid][i]))
  {
    var s := Exec(Init(tenants), run);
    InitInv(tenants);
    RunKeepsInv(AnyRun, Init(tenants), run);
    forall k | k in s.table ensures H.ColumnsAgree(s.table[k]) {
      var h := s.history[s.table[k].uid];
      assert H.ColumnsAgree(h[|h| - 1]);
    }
  }

  /** What a read amounts to when the row is still of the incarnation that was read: the version read
      is the current one exactly when its token is the current one. */
  lemma ReadVersusCurrent(s: State, rec: Record)
    requires Inv(s) && WasRead(s, rec) && rec.key in s.table && s.table[rec.key].uid == rec.uid
    ensures rec.resourceVersion == Decimal(s.table[rec.key].rv) <==> rec == ToRecord(s.table[rec.key])
  {
    var row := s.table[rec.key];
    var h := s.history[rec.uid];
    var i :| 0 <= i < |h| && rec == ToRecord(h[i]);
    DecimalInjective(h[i].rv, row.rv);
  }

  /** A reconciler write that succeeds replaces exactly the version that was listed, if and only if
      the row is still of the incarnation that was listed; what it stores then is the current row,
      reconciled. */
  lemma ReconcilerOverwritesWhatItListed(s: State, key: Key, readings: Readings)
    requires Inv(s) && key in s.snapshot && Wrote(s, key, ReconciledTable(s, key, readings))
    ensures key in s.table
    ensures s.snapshot[key] == ToRecord(s.table[key]) <==> s.snapshot[key].uid == s.table[key].uid
    ensures s.snapshot[key].uid == s.table[key].uid ==>
              ReconciledTable(s, key, readings)[key] == ReconciledRow(s.table[key], readings)
  {
    var rec := s.snapshot[key];
    if DesiredWrite(rec, readings).Some? {
      DesiredWriteKeeps(rec, readings);
    }
    if key in s.table && rec.uid == s.table[key].uid {
      ReadVersusCurrent(s, rec);
    }
  }

  /** What it takes for an update to store a row, and which row it stores. */
  lemma UpdateStores(s: State, op: int)
    requires Inv(s) && IsUpdating(s, op)
    ensures var p := s.pending[op];
            var key, rec := p.current.key, H.RecordForUpdate(p.tenant, p.request, p.current);
            && rec.key == key
            && (Wrote(s, key, UpdatedTable(s, op)) <==>
                  key in s.table && H.MetaOf(p.request).resourceVersion == Decimal(s.table[key].rv))
            && (Wrote(s, key, UpdatedTable(s, op)) ==> UpdatedTable(s, op)[key] == Bumped(s.table[key], rec))
  {
  }

  /** An update that succeeds replaces exactly the version its handler read, if and only if the row is
      still of that incarnation and the client's token was the version the handler read. */
  lemma UpdateOverwritesWhatItRead(s: State, op: int)
    requires Inv(s) && IsUpdating(s, op) && Wrote(s, s.pending[op].current.key, UpdatedTable(s, op))
    ensures s.pending[op].current.key in s.table
    ensures var p, row := s.pending[op], s.table[s.pending[op].current.key];
            p.current == ToRecord(row) <==>
              p.current.uid == row.uid && H.MetaOf(p.request).resourceVersion == p.current.resourceVersion
  {
    var p := s.pending[op];
    UpdateStores(s, op);
    if p.current.uid == s.table[p.current.key].uid {
      ReadVersusCurrent(s, p.current);
    }
  }

  // ----- honest runs: generations and statuses -----

  ghost predicate GenerationsOk(h: seq<Row>) {
    && h != []
    && h[0].generation == 1
    && forall i :: 0 < i < |h| ==>
         h[i].generation == h[i - 1].generation + (if SameSpec(h[i - 1].data, h[i].data) then 0 else 1)
  }

  /** The status reports on version j. */
  ghost predicate ReportsVersion(h: seq<Row>, j: int, status: WorkflowStatus)
    requires 0 <= j < |h|
  {
    h[j].data.Workflow? && Reports(status, h[j].data.workflowSpec, h[j].generation)
  }

  /** The status of version i has not observed its generation, or reports on a version no later. */
  ghost predicate StatusOk(h: seq<Row>, i: int, status: WorkflowStatus)
    requires 0 <= i < |h|
  {
    || status.observedGeneration < h[i].generation
    || exists j :: 0 <= j <= i && ReportsVersion(h, j, status)
  }

  ghost predicate StatusesOk(h: seq<Row>) {
    forall i :: 0 <= i < |h| && h[i].data.Workflow? && h[i].data.workflowStatus.Some? ==>
      StatusOk(h, i, h[i].data.workflowStatus.value)
  }

  /** The client's token is a version no later than the one the handler read. */
  ghost predicate TokenNotAhead(h: seq<Row>, request: Resource, current: Record) {
    exists i, j :: 0 <= i <= j < |h|
      && current == ToRecord(h[j]) && H.MetaOf(request).resourceVersion == Decimal(h[i].rv)
  }

  /** What clients whose tokens are honest keep, and what those whose statuses are honest keep besides. */
  ghost predicate HonestInv(d: Discipline, s: State) {
    && Inv(s)
    && (forall uid :: uid in s.history ==> LineageOk(d, s.history[uid]))
    && (forall op :: op in s.pending && s.pending[op].Updating? ==> HonestPending(d, s, s.pending[op]))
  }

  ghost predicate LineageOk(d: Discipline, h: seq<Row>) {
    GenerationsOk(h) && (d == HonestClients ==> StatusesOk(h))
  }

  ghost predicate HonestPending(d: Discipline, s: State, p: Pending)
    requires p.Updating?
  {
    && p.current.uid in s.history
    && TokenNotAhead(s.history[p.current.uid], p.request, p.current)
    && (d == HonestClients ==> HonestStatus(s.history[p.current.uid], p.request))
  }

  lemma HonestPendingSurvives(d: Discipline, s: State, s': State, p: Pending)
    requires Grows(s, s') && p.Updating? && HonestPending(d, s, p)
    ensures HonestPending(d, s', p)
  {
  }

  /** An honest update of an undisturbed incarnation replaces exactly the version it read. */
  lemma HonestUpdateReplacesWhatItRead(d: Discipline, s: State, op: int)
    requires HonestInv(d, s) && IsUpdating(s, op) && SameIncarnation(s, FinishUpdate(op))
    requires Wrote(s, s.pending[op].current.key, UpdatedTable(s, op))
    ensures s.pending[op].current.key in s.table
    ensures s.pending[op].current == ToRecord(s.table[s.pending[op].current.key])
  {
    var p := s.pending[op];
    UpdateStores(s, op);
    TokenNamesWhatWasRead(s.history[p.current.uid], p.request, p.current);
  }

  /** A token that is not ahead of the read, and is the latest version, is the version read. */
  lemma TokenNamesWhatWasRead(h: seq<Row>, request: Resource, current: Record)
    requires Lineage(current.uid, h) && TokenNotAhead(h, request, current)
    requires H.MetaOf(request).resourceVersion == Decimal(Latest(h).rv)
    ensures current == ToRecord(Latest(h))
  {
    var i, j :| 0 <= i <= j < |h| && current == ToRecord(h[j]) && H.MetaOf(request).resourceVersion == Decimal(h[i].rv);
    DecimalInjective(h[i].rv, Latest(h).rv);
  }

  // ----- appending a version -----

  lemma AppendGeneration(h: seq<Row>, row: Row)
    requires GenerationsOk(h)
    requires row.generation == Latest(h).generation + (if SameSpec(Latest(h).data, row.data) then 0 else 1)
    ensures GenerationsOk(h + [row])
  {
  }

  lemma AppendStatus(h: seq<Row>, row: Row)
    requires StatusesOk(h)
    requires row.data.Workflow? && row.data.workflowStatus.Some? ==>
               StatusOk(h + [row], |h|, row.data.workflowStatus.value)
    ensures StatusesOk(h + [row])
  {
    var h' := h + [row];
    forall i | 0 <= i < |h| && h[i].data.Workflow? && h[i].data.workflowStatus.Some?
      ensures StatusOk(h', i, h'[i].data.workflowStatus.value)
    {
      var status := h[i].data.workflowStatus.value;
      if k :| 0 <= k <= i && ReportsVersion(h, k, status) {
        assert ReportsVersion(h', k, status);
      }
    }
  }

  /** The version an honest update stores. */
  lemma UpdateAppends(d: Discipline, s: State, op: int)
    requires HonestInv(d, s) && IsUpdating(s, op) && SameIncarnation(s, FinishUpdate(op))
    requires Wrote(s, s.pending[op].current.key, UpdatedTable(s, op))
    ensures s.pending[op].current.key in s.table
    ensures var key := s.pending[op].current.key;
            var row, h := UpdatedTable(s, op)[key], s.history[s.table[key].uid];
            LineageOk(d, h + [row])
  {
    var p := s.pending[op];
    HonestUpdateReplacesWhatItRead(d, s, op);
    UpdateStores(s, op);
    var row := s.table[p.current.key];
    var next := Bumped(row, H.RecordForUpdate(p.tenant, p.request, p.current));
    StampedVersion(row, p.tenant, p.request);
    AppendGeneration(s.history[row.uid], next);
    OneKind(row.uid, s.history[row.uid]);
    if d == HonestClients {
      AppendHonestStatus(s.history[row.uid], next, p.request);
    }
  }

  /** The version that an update computes from the current row. */
  lemma StampedVersion(row: Row, tenant: Str, request: Resource)
    requires KindOf(row.data) == KindOf(request)
    ensures var next := Bumped(row, H.RecordForUpdate(tenant, request, ToRecord(row)));
            && next.generation == row.generation + (if SameSpec(row.data, next.data) then 0 else 1)
            && KindOf(next.data) == KindOf(request)
            && (request.Workflow? ==> next.data.workflowStatus == request.workflowStatus)
  {
  }

  /** An honest status stays honest in the version it is stored with. */
  lemma AppendHonestStatus(h: seq<Row>, row: Row, request: Resource)
    requires StatusesOk(h) && GenerationsOk(h + [row]) && HonestStatus(h, request)
    requires forall k :: 0 <= k < |h| ==> KindOf(h[k].data) == KindOf(row.data)
    requires KindOf(row.data) == KindOf(request)
    requires request.Workflow? ==> row.data.workflowStatus == request.workflowStatus
    ensures StatusesOk(h + [row])
  {
    KindsDiffer();
    var h', n := h + [row], |h|;
    if request.Workflow? && request.workflowStatus.Some? {
      var status := request.workflowStatus.value;
      var i :| 0 <= i < n && h[i].data.Workflow? && BearsOut(h[i], status);
      assert h'[i] == h[i] && h'[n] == row;
      GenerationsAscend(h', i, n);
      if status.observedGeneration >= row.generation {
        if h[i].data.workflowStatus == Some(status) {
          var j :| 0 <= j <= i && ReportsVersion(h, j, status);
          assert ReportsVersion(h', j, status);
        } else {
          assert ReportsVersion(h', i, status);
        }
      }
    }
    AppendStatus(h, row);
  }

  /** The version the reconciler stores: same spec, same generation, and a status that reports on it. */
  lemma ReconcileAppends(d: Discipline, s: State, key: Key, readings: Readings)
    requires HonestInv(d, s) && key in s.snapshot && SameIncarnation(s, Reconcile(key, readings))
    requires Wrote(s, key, ReconciledTable(s, key, readings))
    ensures key in s.table
    ensures var row, h := ReconciledTable(s, key, readings)[key], s.history[s.table[key].uid];
            LineageOk(d, h + [row])
  {
    ReconcilerOverwritesWhatItListed(s, key, readings);
    var rec := s.snapshot[key];
    DesiredWriteKeeps(rec, readings);
    var row, h := ReconciledTable(s, key, readings)[key], s.history[s.table[key].uid];
    assert row == Bumped(s.table[key], DesiredWrite(rec, readings).value) && Latest(h) == s.table[key];
    AppendGeneration(h, row);
    assert (h + [row])[|h|] == row;
    if d == HonestClients {
      assert ReportsVersion(h + [row], |h|, row.data.workflowStatus.value);
      AppendStatus(h, row);
    }
  }

  /** The version a create stores has generation 1 and no status. */
  lemma CreateStarts(s: State, op: int, uid: string, now: Time)
    requires Inv(s) && IsCreating(s, op) && uid !in s.history
    ensures var p := s.pending[op];
            var key, t := H.KeyFor(p.tenant, p.request), CreatedTable(s, op, uid, now);
            Wrote(s, key, t) ==> t[key].uid == uid && GenerationsOk([t[key]]) && StatusesOk([t[key]])
  {
  }

  // ----- every step of an honest run -----

  /** A step keeps the honest invariant if the version it stores, if any, fits its lineage. */
  lemma WriteKeepsHonest(d: Discipline, s: State, s': State, key: Key, t: Rows)
    requires HonestInv(d, s) && Inv(s') && Grows(s, s')
    requires s'.history == Committed(s, key, t).history
    requires Wrote(s, key, t) ==>
               var h := (if t[key].uid in s.history then s.history[t[key].uid] else []) + [t[key]];
               LineageOk(d, h)
    requires forall op :: op in s'.pending ==> op in s.pending && s'.pending[op] == s.pending[op]
    ensures HonestInv(d, s')
  {
    forall op | op in s'.pending && s'.pending[op].Updating? ensures HonestPending(d, s', s'.pending[op]) {
      HonestPendingSurvives(d, s, s', s.pending[op]);
    }
  }

  lemma HonestRead(d: Discipline, s: State, a: Action)
    requires HonestInv(d, s) && TrustsTokens(d) && a.BeginUpdate? && HonestRequest(d, s, a)
    requires H.BeginUpdate(s.table, a.tenant, a.request).Ok?
    ensures HonestPending(d, s, Updating(a.tenant, a.request, H.BeginUpdate(s.table, a.tenant, a.request).value))
  {
  }

  lemma BeginUpdateKeepsHonest(d: Discipline, s: State, a: Action)
    requires HonestInv(d, s) && TrustsTokens(d) && a.BeginUpdate? && HonestRequest(d, s, a)
    ensures HonestInv(d, Step(s, a))
  {
    StepKeepsInv(s, a);
    var read := H.BeginUpdate(s.table, a.tenant, a.request);
    if read.Ok? {
      HonestRead(d, s, a);
      AddPendingKeepsHonest(d, s, a.op, Updating(a.tenant, a.request, read.value));
    }
  }

  lemma AddPendingKeepsHonest(d: Discipline, s: State, op: int, p: Pending)
    requires HonestInv(d, s) && Inv(s.(pending := s.pending[op := p]))
    requires p.Updating? ==> HonestPending(d, s, p)
    ensures HonestInv(d, s.(pending := s.pending[op := p]))
  {
  }

  lemma FinishCreateKeepsHonest(d: Discipline, s: State, a: Action)
    requires HonestInv(d, s) && a.FinishCreate? && FreshUid(s, a)
    ensures HonestInv(d, Step(s, a))
  {
    StepKeepsInv(s, a);
    if IsCreating(s, a.op) {
      var p := s.pending[a.op];
      var key, t := H.KeyFor(p.tenant, p.request), CreatedTable(s, a.op, a.uid, a.now);
      CreateStarts(s, a.op, a.uid, a.now);
      if Wrote(s, key, t) {
        assert [] + [t[key]] == [t[key]];
      }
      WriteKeepsHonest(d, s, Step(s, a), key, t);
    }
  }

  lemma FinishUpdateKeepsHonest(d: Discipline, s: State, a: Action)
    requires HonestInv(d, s) && a.FinishUpdate? && SameIncarnation(s, a)
    ensures HonestInv(d, Step(s, a))
  {
    StepKeepsInv(s, a);
    if IsUpdating(s, a.op) {
      var key, t := s.pending[a.op].current.key, UpdatedTable(s, a.op);
      UpdateStores(s, a.op);
      if Wrote(s, key, t) { UpdateAppends(d, s, a.op); }
      WriteKeepsHonest(d, s, Step(s, a), key, t);
    }
  }

  lemma ReconcileKeepsHonest(d: Discipline, s: State, a: Action)
    requires HonestInv(d, s) && a.Reconcile? && SameIncarnation(s, a)
    ensures HonestInv(d, Step(s, a))
  {
    StepKeepsInv(s, a);
    if a.key in s.snapshot {
      var key, t := a.key, ReconciledTable(s, a.key, a.readings);
      if Wrote(s, key, t) {
        ReconcileAppends(d, s, key, a.readings);
        ReconcileEffect(s, key, a.readings);
      }
      WriteKeepsHonest(d, s, Step(s, a), key, t);
    }
  }

  lemma DeleteStoresNothing(s: State, a: Action)
    requires a.Delete?
    ensures Step(s, a).history == s.history && Step(s, a).pending == s.pending
  {
  }

  lemma QuietKeepsHonest(d: Discipline, s: State, s': State)
    requires HonestInv(d, s) && Inv(s') && s'.history == s.history && s'.pending == s.pending
    ensures HonestInv(d, s')
  {
  }

  lemma StepKeepsHonest(d: Discipline, s: State, a: Action)
    requires HonestInv(d, s) && TrustsTokens(d) && Allowed(d, s, a)
    ensures HonestInv(d, Step(s, a))
  {
    match a
    case BeginCreate(op, tenant, request) =>
      StepKeepsInv(s, a);
      if H.BeginCreate(s.table, tenant, request).Ok? {
        AddPendingKeepsHonest(d, s, op, Creating(tenant, request));
      }
    case FinishCreate(op, uid, now) => FinishCreateKeepsHonest(d, s, a);
    case BeginUpdate(op, tenant, request) => BeginUpdateKeepsHonest(d, s, a);
    case FinishUpdate(op) => FinishUpdateKeepsHonest(d, s, a);
    case Delete(tenant, target) =>
      StepKeepsInv(s, a);
      DeleteStoresNothing(s, a);
      QuietKeepsHonest(d, s, Step(s, a));
    case ListWorkflows =>
      StepKeepsInv(s, a);
      QuietKeepsHonest(d, s, Step(s, a));
    case Reconcile(key, readings) => ReconcileKeepsHonest(d, s, a);
  }

  lemma {:induction false} RunKeepsHonest(d: Discipline, s: State, run: seq<Action>)
    requires HonestInv(d, s) && TrustsTokens(d) && IsRun(d, s, run)
    ensures HonestInv(d, Exec(s, run))
    decreases |run|
  {
    if run == [] {
    } else {
      StepKeepsHonest(d, s, run[0]);
      RunKeepsHonest(d, Step(s, run[0]), run[1..]);
    }
  }

  lemma Reachable(d: Discipline, tenants: set<Str>, run: seq<Action>)
    requires TrustsTokens(d) && IsRun(d, Init(tenants), run)
    ensures HonestInv(d, Exec(Init(tenants), run))
  {
    InitInv(tenants);
    RunKeepsHonest(d, Init(tenants), run);
  }

  // ----- generations count spec changes -----

  /** How often the spec changed along a lineage. */
  function SpecChanges(h: seq<Row>): nat {
    if |h| <= 1 then 0
    else SpecChanges(h[..|h| - 1]) + if SameSpec(h[|h| - 2].data, h[|h| - 1].data) then 0 else 1
  }

  lemma {:induction false} GenerationIsOnePlusChanges(h: seq<Row>)
    requires GenerationsOk(h)
    ensures Latest(h).generation == 1 + SpecChanges(h)
    ensures 1 <= Latest(h).generation <= |h|
  {
    if |h| > 1 {
      var front := h[..|h| - 1];
      assert forall i :: 0 <= i < |front| ==> front[i] == h[i];
      GenerationIsOnePlusChanges(front);
    }
  }

  lemma {:induction false} GenerationsAscend(h: seq<Row>, i: int, j: int)
    requires GenerationsOk(h) && 0 <= i <= j < |h|
    requires forall k :: 0 <= k < |h| ==> KindOf(h[k].data) == KindOf(h[0].data)
    ensures h[i].generation <= h[j].generation
    ensures h[i].generation == h[j].generation ==> SameSpec(h[i].data, h[j].data)
    decreases j - i
  {
    if i < j {
      GenerationsAscend(h, i, j - 1);
      assert h[j].generation == h[j - 1].generation + (if SameSpec(h[j - 1].data, h[j].data) then 0 else 1);
    }
  }

  /** Along a lineage whose generation moved by one, the spec is a different one. */
  lemma {:induction false} OneChangeDiffers(h: seq<Row>, i: int, j: int)
    requires GenerationsOk(h) && 0 <= i <= j < |h| && h[j].generation == h[i].generation + 1
    requires forall k :: 0 <= k < |h| ==> KindOf(h[k].data) == KindOf(h[0].data)
    ensures !SameSpec(h[i].data, h[j].data)
    decreases j - i
  {
    GenerationsAscend(h, i, j - 1);
    assert h[j].generation == h[j - 1].generation + (if SameSpec(h[j - 1].data, h[j].data) then 0 else 1);
    if h[j - 1].generation == h[j].generation {
      OneChangeDiffers(h, i, j - 1);
    }
  }

  /** In every run of clients with honest tokens, whatever statuses they send, the generation of a row is
      one plus the number of stored writes that changed its spec, and it never exceeds the version; within
      a lineage it never decreases, and a generation has one spec. */
  lemma GenerationCountsSpecChanges(d: Discipline, tenants: set<Str>, run: seq<Action>)
    requires TrustsTokens(d) && IsRun(d, Init(tenants), run)
    ensures var s := Exec(Init(tenants), run);
            && (forall k :: k in s.table ==>
                  && s.table[k].uid in s.history
                  && s.table[k].generation == 1 + SpecChanges(s.history[s.table[k].uid])
                  && 1 <= s.table[k].generation <= s.table[k].rv)
            && (forall uid, i, j :: uid in s.history && 0 <= i <= j < |s.history[uid]| ==>
                  var h := s.history[uid];
                  && h[i].generation <= h[j].generation
                  && (h[i].generation == h[j].generation ==> SameSpec(h[i].data, h[j].data)))
  {
    var s := Exec(Init(tenants), run);
    Reachable(d, tenants, run);
    forall k | k in s.table {
      GenerationIsOnePlusChanges(s.history[s.table[k].uid]);
    }
    forall uid, i, j | uid in s.history && 0 <= i <= j < |s.history[uid]|
      ensures var h := s.history[uid];
              && h[i].generation <= h[j].generation
              && (h[i].generation == h[j].generation ==> SameSpec(h[i].data, h[j].data))
    {
      OneKind(uid, s.history[uid]);
      GenerationsAscend(s.history[uid], i, j);
    }
  }

  lemma OneKind(uid: string, h: seq<Row>)
    requires Lineage(uid, h)
    ensures forall k :: 0 <= k < |h| ==> KindOf(h[k].data) == KindOf(h[0].data)
  {
  }

  // ----- status soundness -----

  /** If the status has observed the row's generation, it says of the row's spec whether it is runnable. */
  predicate IsSound(row: Row) {
    row.data.Workflow? && row.data.workflowStatus.Some?
      && row.data.workflowStatus.value.observedGeneration == row.generation ==>
      Reports(row.data.workflowStatus.value, row.data.workflowSpec, row.generation)
  }

  /** The status of an update is absent, or has not observed the generation that the handler computes,
      or is right about the spec. */
  predicate SoundRequest(current: Record, request: Resource) {
    var g := H.NextGeneration(current, request);
    || request.Project?
    || request.workflowStatus.None?
    || request.workflowStatus.value.observedGeneration != g
    || Reports(request.workflowStatus.value, request.workflowSpec, g)
  }

  /** Without trust in the status: the row that an update stores is sound exactly when the status it
      sends is absent, or has not observed the generation that the handler computes, or is right. */
  lemma UpdateIsSoundExactly(s: State, op: int)
    requires Inv(s) && IsUpdating(s, op) && Wrote(s, s.pending[op].current.key, UpdatedTable(s, op))
    ensures var p := s.pending[op];
            IsSound(UpdatedTable(s, op)[p.current.key]) <==> SoundRequest(p.current, p.request)
  {
    UpdateStores(s, op);
  }

  /** Status soundness.  In every run of honest clients, a stored status that has observed the row's
      generation says of the stored spec, in both conditions, whether it is runnable. */
  lemma StatusSoundness(tenants: set<Str>, run: seq<Action>, key: Key)
    requires IsRun(HonestClients, Init(tenants), run)
    requires key in Exec(Init(tenants), run).table
    ensures IsSound(Exec(Init(tenants), run).table[key])
  {
    var s := Exec(Init(tenants), run);
    Reachable(HonestClients, tenants, run);
    var row := s.table[key];
    var h := s.history[row.uid];
    var n := |h| - 1;
    assert row == h[n];
    if row.data.Workflow? && row.data.workflowStatus.Some?
       && row.data.workflowStatus.value.observedGeneration == row.generation
    {
      assert StatusOk(h, n, h[n].data.workflowStatus.value);
      var j :| 0 <= j <= n && ReportsVersion(h, j, h[n].data.workflowStatus.value);
      OneKind(row.uid, h);
      GenerationsAscend(h, j, n);
    }
  }
}
