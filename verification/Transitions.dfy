/** The statuses that runs leave behind, and since when their conditions say what they say. */
module Transitions {
  import opened Bytes
  import opened Api
  import opened Table
  import opened Status
  import opened Reconciler
  import opened ControlPlane
  import opened Lineages
  import H = Handlers

  /** The status of the latest version of an incarnation, deleted or not. */
  function StatusOf(s: State, uid: string): Option<WorkflowStatus> {
    if uid in s.history && s.history[uid] != [] && Latest(s.history[uid]).data.Workflow?
    then Latest(s.history[uid]).data.workflowStatus
    else None
  }

  /** An update that is stored carries the status the row has by then. */
  predicate CarriesStatus(s: State, a: Action) {
    a.FinishUpdate? && IsUpdating(s, a.op) && Wrote(s, s.pending[a.op].current.key, UpdatedTable(s, a.op)) ==>
      var p := s.pending[a.op];
      p.request.Workflow? && p.current.key in s.table && s.table[p.current.key].data.Workflow? ==>
        p.request.workflowStatus == s.table[p.current.key].data.workflowStatus
  }

  predicate CarriesStatuses(s: State, run: seq<Action>)
    decreases |run|
  {
    run == [] || (CarriesStatus(s, run[0]) && CarriesStatuses(Step(s, run[0]), run[1..]))
  }

  /** What a status says of one type of condition: the value of the condition, and since when. */
  function View(status: Option<WorkflowStatus>, conditionType: string): Option<(string, Option<Time>)> {
    match FindCondition(ConditionsOf(status), conditionType)
    case None => None
    case Some(c) => Some((c.status, c.lastTransitionTime))
  }

  /** An update that is stored says the same of this type of condition as the row does by then. */
  predicate CarriesView(s: State, a: Action, conditionType: string) {
    a.FinishUpdate? && IsUpdating(s, a.op) && Wrote(s, s.pending[a.op].current.key, UpdatedTable(s, a.op)) ==>
      var p := s.pending[a.op];
      p.request.Workflow? && p.current.key in s.table && s.table[p.current.key].data.Workflow? ==>
        View(p.request.workflowStatus, conditionType)
          == View(s.table[p.current.key].data.workflowStatus, conditionType)
  }

  predicate CarriesViews(s: State, run: seq<Action>, conditionType: string)
    decreases |run|
  {
    run == [] || (CarriesView(s, run[0], conditionType) && CarriesViews(Step(s, run[0]), run[1..], conditionType))
  }

  /** The reconcile of this incarnation that this step stores, if it does. */
  function VisitOf(s: State, a: Action, uid: string): seq<Visit> {
    if a.Reconcile? && a.key in s.snapshot && a.key in s.table && s.table[a.key].uid == uid
       && Wrote(s, a.key, ReconciledTable(s, a.key, a.readings)) && s.table[a.key].data.Workflow?
    then [Visit(s.table[a.key].data.workflowSpec, s.table[a.key].generation, a.readings)]
    else []
  }

  /** The stored reconciles of an incarnation in a run, in order. */
  function VisitsOf(s: State, run: seq<Action>, uid: string): seq<Visit>
    decreases |run|
  {
    if run == [] then [] else VisitOf(s, run[0], uid) + VisitsOf(Step(s, run[0]), run[1..], uid)
  }

  // ----- one step -----

  lemma CommittedStatus(s: State, key: Key, t: Rows, uid: string)
    requires Inv(s) && Effect(s, key, t)
    ensures StatusOf(Committed(s, key, t), uid) ==
              if Wrote(s, key, t) && t[key].uid == uid
              then (if t[key].data.Workflow? then t[key].data.workflowStatus else None)
              else StatusOf(s, uid)
  {
    if t != s.table && Inserts(s, key, t) {
      InsertKeepsTable(s, key, t);
    } else if t != s.table {
      ReplaceKeepsTable(s, key, t);
    }
  }

  lemma CreateStatus(s: State, a: Action, uid: string)
    requires Inv(s) && a.FinishCreate? && FreshUid(s, a)
    ensures StatusOf(Step(s, a), uid) == StatusOf(s, uid)
  {
    if IsCreating(s, a.op) {
      var p := s.pending[a.op];
      var key, t := H.KeyFor(p.tenant, p.request), CreatedTable(s, a.op, a.uid, a.now);
      CreateEffect(s, a.op, a.uid, a.now);
      CommittedStatus(s, key, t, uid);
      CreatedWithoutStatus(s, a);
    }
  }

  lemma CreatedWithoutStatus(s: State, a: Action)
    requires a.FinishCreate? && IsCreating(s, a.op)
    ensures var p := s.pending[a.op];
            var key, t := H.KeyFor(p.tenant, p.request), CreatedTable(s, a.op, a.uid, a.now);
            Wrote(s, key, t) ==> t[key].uid == a.uid && (t[key].data.Workflow? ==> t[key].data.workflowStatus.None?)
  {
  }

  /** The row of a key is the latest version of its incarnation. */
  lemma CurrentStatus(s: State, key: Key)
    requires Inv(s) && key in s.table
    ensures StatusOf(s, s.table[key].uid) ==
              if s.table[key].data.Workflow? then s.table[key].data.workflowStatus else None
  {
  }

  lemma UpdateStatus(s: State, a: Action, uid: string)
    requires Inv(s) && a.FinishUpdate? && CarriesStatus(s, a)
    ensures StatusOf(Step(s, a), uid) == StatusOf(s, uid)
  {
    if IsUpdating(s, a.op) {
      var p := s.pending[a.op];
      var key, t := p.current.key, UpdatedTable(s, a.op);
      UpdateEffect(s, a.op);
      UpdateStores(s, a.op);
      CommittedStatus(s, key, t, uid);
      if Wrote(s, key, t) {
        CurrentStatus(s, key);
        UpdatedKind(s, a.op);
      }
    }
  }

  /** An update leaves all statuses as they are exactly if, when it is stored, it carries the current one. */
  lemma UpdateKeepsStatusExactly(s: State, a: Action)
    requires Inv(s) && a.FinishUpdate?
    ensures (forall uid :: StatusOf(Step(s, a), uid) == StatusOf(s, uid)) <==> CarriesStatus(s, a)
  {
    if CarriesStatus(s, a) {
      forall uid ensures StatusOf(Step(s, a), uid) == StatusOf(s, uid) {
        UpdateStatus(s, a, uid);
      }
    } else {
      var key, t := s.pending[a.op].current.key, UpdatedTable(s, a.op);
      UpdateEffect(s, a.op);
      UpdatedKind(s, a.op);
      CommittedStatus(s, key, t, s.table[key].uid);
      CurrentStatus(s, key);
    }
  }

  /** The status of each incarnation after an update is stored: that of the request, on one of them. */
  lemma UpdatedStatus(s: State, a: Action, uid: string)
    requires Inv(s) && a.FinishUpdate? && IsUpdating(s, a.op)
    ensures var p := s.pending[a.op];
            var key := p.current.key;
            StatusOf(Step(s, a), uid) ==
              if Wrote(s, key, UpdatedTable(s, a.op)) && key in s.table && s.table[key].uid == uid
                 && p.request.Workflow?
              then p.request.workflowStatus
              else StatusOf(s, uid)
  {
    var key, t := s.pending[a.op].current.key, UpdatedTable(s, a.op);
    UpdateEffect(s, a.op);
    CommittedStatus(s, key, t, uid);
    if Wrote(s, key, t) {
      UpdatedKind(s, a.op);
      CurrentStatus(s, key);
    }
  }

  /** An update leaves the value and the transition time of a type of condition as they are, in all rows,
      exactly if, when it is stored, it says the same of it as the row does by then. */
  lemma UpdateKeepsTimesExactly(s: State, a: Action, conditionType: string)
    requires Inv(s) && a.FinishUpdate?
    ensures (forall uid :: View(StatusOf(Step(s, a), uid), conditionType) == View(StatusOf(s, uid), conditionType)) <==>
              CarriesView(s, a, conditionType)
  {
    if IsUpdating(s, a.op) {
      var p := s.pending[a.op];
      var key := p.current.key;
      if CarriesView(s, a, conditionType) {
        forall uid ensures View(StatusOf(Step(s, a), uid), conditionType) == View(StatusOf(s, uid), conditionType) {
          UpdatedView(s, a, conditionType, uid);
        }
      } else {
        UpdatedStatus(s, a, s.table[key].uid);
        CurrentStatus(s, key);
      }
    }
  }

  lemma UpdatedView(s: State, a: Action, conditionType: string, uid: string)
    requires Inv(s) && a.FinishUpdate? && CarriesView(s, a, conditionType)
    ensures View(StatusOf(Step(s, a), uid), conditionType) == View(StatusOf(s, uid), conditionType)
  {
    if IsUpdating(s, a.op) {
      var key := s.pending[a.op].current.key;
      UpdatedStatus(s, a, uid);
      if Wrote(s, key, UpdatedTable(s, a.op)) {
        UpdatedKind(s, a.op);
        CurrentStatus(s, key);
      }
    }
  }

  /** An update keeps the kind of a row and stores the status it was sent. */
  lemma UpdatedKind(s: State, op: int)
    requires Inv(s) && IsUpdating(s, op) && Wrote(s, s.pending[op].current.key, UpdatedTable(s, op))
    ensures var p := s.pending[op];
            var key := p.current.key;
            && key in s.table && UpdatedTable(s, op)[key].uid == s.table[key].uid
            && KindOf(UpdatedTable(s, op)[key].data) == KindOf(s.table[key].data) == KindOf(p.request)
            && (p.request.Workflow? ==> UpdatedTable(s, op)[key].data.workflowStatus == p.request.workflowStatus)
  {
    UpdateStores(s, op);
    var key := s.pending[op].current.key;
    var h := s.history[s.table[key].uid];
    assert H.ColumnsAgree(h[|h| - 1]);
  }

  lemma ReconcileStatus(s: State, a: Action, uid: string)
    requires Inv(s) && a.Reconcile? && SameIncarnation(s, a)
    ensures StatusOf(Step(s, a), uid) == StatusAfter(StatusOf(s, uid), VisitOf(s, a, uid))
  {
    if a.key in s.snapshot {
      var t := ReconciledTable(s, a.key, a.readings);
      ReconcileEffect(s, a.key, a.readings);
      CommittedStatus(s, a.key, t, uid);
      if Wrote(s, a.key, t) {
        ReconcilerOverwritesWhatItListed(s, a.key, a.readings);
        ReconcileConverges(s.table[a.key], a.readings);
        CurrentStatus(s, a.key);
      }
    }
  }

  lemma QuietStatus(s: State, a: Action, uid: string)
    requires !a.FinishCreate? && !a.FinishUpdate? && !a.Reconcile?
    ensures StatusOf(Step(s, a), uid) == StatusOf(s, uid)
  {
  }

  lemma StepStatus(s: State, a: Action, uid: string)
    requires Inv(s) && Allowed(OneIncarnation, s, a) && CarriesStatus(s, a)
    ensures StatusOf(Step(s, a), uid) == StatusAfter(StatusOf(s, uid), VisitOf(s, a, uid))
  {
    if a.FinishCreate? {
      CreateStatus(s, a, uid);
    } else if a.FinishUpdate? {
      UpdateStatus(s, a, uid);
    } else if a.Reconcile? {
      ReconcileStatus(s, a, uid);
    } else {
      QuietStatus(s, a, uid);
    }
  }

  // ----- every run -----

  /** Between any two states of a run whose updates carry the current status, the status of an incarnation
      changes as by its stored reconciles alone. */
  lemma {:induction false} StatusIsThatOfItsVisits(s: State, run: seq<Action>, uid: string)
    requires Inv(s) && IsRun(OneIncarnation, s, run) && CarriesStatuses(s, run)
    ensures StatusOf(Exec(s, run), uid) == StatusAfter(StatusOf(s, uid), VisitsOf(s, run, uid))
    decreases |run|
  {
    if run == [] {
    } else {
      StepStatus(s, run[0], uid);
      StepKeepsInv(s, run[0]);
      StatusIsThatOfItsVisits(Step(s, run[0]), run[1..], uid);
      StatusAfterMore(StatusOf(s, uid), VisitOf(s, run[0], uid), VisitsOf(Step(s, run[0]), run[1..], uid));
    }
  }

  /** What reconciles make of a condition depends on the prior status only by what it says of that type. */
  lemma {:induction false} ViewAfter(
      prior: Option<WorkflowStatus>, prior': Option<WorkflowStatus>, history: seq<Visit>, conditionType: string)
    requires IsComputedType(conditionType) && View(prior, conditionType) == View(prior', conditionType)
    ensures View(StatusAfter(prior, history), conditionType) == View(StatusAfter(prior', history), conditionType)
  {
    if history == [] {
    } else {
      ViewAfter(prior, prior', history[..|history| - 1], conditionType);
      LastVisit(prior, history, conditionType);
      LastVisit(prior', history, conditionType);
    }
  }

  lemma StepView(s: State, a: Action, uid: string, conditionType: string)
    requires Inv(s) && Allowed(OneIncarnation, s, a) && CarriesView(s, a, conditionType)
    ensures View(StatusOf(Step(s, a), uid), conditionType)
              == View(StatusAfter(StatusOf(s, uid), VisitOf(s, a, uid)), conditionType)
  {
    if a.FinishUpdate? {
      UpdatedView(s, a, conditionType, uid);
    } else {
      StepStatus(s, a, uid);
    }
  }

  /** Between any two states of a run whose updates say of a type of condition what the row says, the value
      and transition time of that condition change as by the stored reconciles alone. */
  lemma {:induction false} ViewIsThatOfItsVisits(s: State, run: seq<Action>, uid: string, conditionType: string)
    requires Inv(s) && IsRun(OneIncarnation, s, run) && CarriesViews(s, run, conditionType)
    requires IsComputedType(conditionType)
    ensures View(StatusOf(Exec(s, run), uid), conditionType)
              == View(StatusAfter(StatusOf(s, uid), VisitsOf(s, run, uid)), conditionType)
    decreases |run|
  {
    if run == [] {
    } else {
      var s' := Step(s, run[0]);
      var first, rest := VisitOf(s, run[0], uid), VisitsOf(s', run[1..], uid);
      StepView(s, run[0], uid, conditionType);
      StepKeepsInv(s, run[0]);
      ViewIsThatOfItsVisits(s', run[1..], uid, conditionType);
      ViewAfter(StatusOf(s', uid), StatusAfter(StatusOf(s, uid), first), rest, conditionType);
      StatusAfterMore(StatusOf(s, uid), first, rest);
    }
  }

  /** Transition-time history.  After any run from the start in which no pending write meets a re-created
      row and updates say of a type of condition what the row says, whatever else of the status they change,
      a Workflow that has been reconciled has that condition, and it gives as its last transition time the
      reading of the stored reconcile that began its current unbroken run of equal values. */
  lemma TransitionTimes(tenants: set<Str>, run: seq<Action>, key: Key, conditionType: string)
    requires IsRun(OneIncarnation, Init(tenants), run) && IsComputedType(conditionType)
    requires CarriesViews(Init(tenants), run, conditionType)
    requires var s := Exec(Init(tenants), run);
             key in s.table && s.table[key].data.Workflow? && VisitsOf(Init(tenants), run, s.table[key].uid) != []
    ensures DatesFromVisits(tenants, run, key, conditionType)
  {
    var s0 := Init(tenants);
    InitInv(tenants);
    RunKeepsInv(OneIncarnation, s0, run);
    var uid := Exec(s0, run).table[key].uid;
    ViewIsThatOfItsVisits(s0, run, uid, conditionType);
    CurrentStatus(Exec(s0, run), key);
    TransitionTimeIsStartOfRun(None, VisitsOf(s0, run, uid), conditionType);
  }

  /** The row has the condition, and it dates from the stored reconcile that began the current unbroken run
      of equal values. */
  ghost predicate DatesFromVisits(tenants: set<Str>, run: seq<Action>, key: Key, conditionType: string)
    requires key in Exec(Init(tenants), run).table
  {
    var row := Exec(Init(tenants), run).table[key];
    var visits := VisitsOf(Init(tenants), run, row.uid);
    && visits != []
    && row.data.Workflow? && row.data.workflowStatus.Some?
    && var c := FindCondition(row.data.workflowStatus.value.conditions, conditionType);
       && c.Some?
       && c.value.lastTransitionTime == Some(ReadingFor(visits[LastRunStart(visits)].now, conditionType))
  }
}
