/** Which writes keep the statuses of all stored Workflows sound, whatever the clients. */
module Soundness {
  import opened Bytes
  import opened Api
  import opened Table
  import opened Status
  import opened Reconciler
  import opened ControlPlane
  import opened Lineages
  import H = Handlers

  ghost predicate AllSound(t: Rows) {
    forall k :: k in t ==> IsSound(t[k])
  }

  /** If the step stores an update, the status sent with it is absent, or has not observed the generation
      that the handler computed from its read, or is right about the spec sent with it. */
  predicate SendsSound(s: State, a: Action) {
    a.FinishUpdate? && IsUpdating(s, a.op) && Wrote(s, s.pending[a.op].current.key, UpdatedTable(s, a.op)) ==>
      SoundRequest(s.pending[a.op].current, s.pending[a.op].request)
  }

  predicate SendsSoundly(s: State, run: seq<Action>)
    decreases |run|
  {
    run == [] || (SendsSound(s, run[0]) && SendsSoundly(Step(s, run[0]), run[1..]))
  }

  // ----- one step -----

  /** Storing one row keeps all rows sound exactly if that row is. */
  lemma StoredRowDecides(t: Rows, key: Key, t': Rows)
    requires AllSound(t) && key in t' && t' == t[key := t'[key]]
    ensures AllSound(t') <==> IsSound(t'[key])
  {
  }

  lemma UpdateSoundExactly(s: State, a: Action)
    requires Inv(s) && a.FinishUpdate? && AllSound(s.table)
    ensures AllSound(Step(s, a).table) <==> SendsSound(s, a)
  {
    if IsUpdating(s, a.op) {
      var key, t := s.pending[a.op].current.key, UpdatedTable(s, a.op);
      UpdateEffect(s, a.op);
      if Wrote(s, key, t) {
        UpdateIsSoundExactly(s, a.op);
        StoredRowDecides(s.table, key, t);
      }
    }
  }

  /** What a create stores has no status. */
  lemma CreateIsSound(s: State, a: Action)
    requires Inv(s) && a.FinishCreate? && FreshUid(s, a) && AllSound(s.table)
    ensures AllSound(Step(s, a).table)
  {
    if IsCreating(s, a.op) {
      var p := s.pending[a.op];
      var key, t := H.KeyFor(p.tenant, p.request), CreatedTable(s, a.op, a.uid, a.now);
      CreateEffect(s, a.op, a.uid, a.now);
      if t != s.table {
        CreatedRowIsSound(s, a);
        StoredRowDecides(s.table, key, t);
      }
    }
  }

  lemma CreatedRowIsSound(s: State, a: Action)
    requires a.FinishCreate? && IsCreating(s, a.op)
    ensures var p := s.pending[a.op];
            var key, t := H.KeyFor(p.tenant, p.request), CreatedTable(s, a.op, a.uid, a.now);
            t != s.table && key in t ==> IsSound(t[key])
  {
  }

  /** What a reconcile stores reports on the spec and generation that it stores, on any incarnation. */
  lemma ReconciledRowIsSound(s: State, key: Key, readings: Readings)
    requires Inv(s) && key in s.snapshot && Wrote(s, key, ReconciledTable(s, key, readings))
    ensures IsSound(ReconciledTable(s, key, readings)[key])
  {
    DesiredWriteKeeps(s.snapshot[key], readings);
  }

  lemma ReconcileIsSound(s: State, a: Action)
    requires Inv(s) && a.Reconcile? && AllSound(s.table)
    ensures AllSound(Step(s, a).table)
  {
    if a.key in s.snapshot {
      var t := ReconciledTable(s, a.key, a.readings);
      ReconcileEffect(s, a.key, a.readings);
      if t != s.table {
        ReconciledRowIsSound(s, a.key, a.readings);
        StoredRowDecides(s.table, a.key, t);
      }
    }
  }

  lemma QuietIsSound(s: State, a: Action)
    requires !a.FinishCreate? && !a.FinishUpdate? && !a.Reconcile? && AllSound(s.table)
    ensures AllSound(Step(s, a).table)
  {
  }

  /** Where all statuses are sound, a step of any client leaves them so exactly if it is not an update that
      stores a wrong status at the generation it stores. */
  lemma StepSoundExactly(s: State, a: Action)
    requires Inv(s) && FreshUid(s, a) && AllSound(s.table)
    ensures AllSound(Step(s, a).table) <==> SendsSound(s, a)
  {
    if a.FinishUpdate? {
      UpdateSoundExactly(s, a);
    } else if a.FinishCreate? {
      CreateIsSound(s, a);
    } else if a.Reconcile? {
      ReconcileIsSound(s, a);
    } else {
      QuietIsSound(s, a);
    }
  }

  // ----- every run -----

  ghost predicate SoundThroughout(s: State, run: seq<Action>)
    decreases |run|
  {
    AllSound(s.table) && (run == [] || SoundThroughout(Step(s, run[0]), run[1..]))
  }

  /** All statuses are sound in all states of a run, of any clients, exactly if every stored update sends
      a sound one. */
  lemma {:induction false} RunSoundExactly(s: State, run: seq<Action>)
    requires Inv(s) && IsRun(AnyRun, s, run) && AllSound(s.table)
    ensures SoundThroughout(s, run) <==> SendsSoundly(s, run)
    decreases |run|
  {
    if run == [] {
    } else {
      var s' := Step(s, run[0]);
      StepKeepsInv(s, run[0]);
      StepSoundExactly(s, run[0]);
      if AllSound(s'.table) {
        RunSoundExactly(s', run[1..]);
      } else {
        assert !SoundThroughout(s', run[1..]);
      }
    }
  }

  lemma RunFromStartSoundExactly(tenants: set<Str>, run: seq<Action>)
    requires IsRun(AnyRun, Init(tenants), run)
    ensures SoundThroughout(Init(tenants), run) <==> SendsSoundly(Init(tenants), run)
  {
    InitInv(tenants);
    RunSoundExactly(Init(tenants), run);
  }
}
