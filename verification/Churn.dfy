/** How much the reconciler writes, and where it comes to rest. */
module Churn {
  import opened Bytes
  import opened Api
  import opened Table
  import opened Status
  import opened Reconciler
  import opened ControlPlane
  import opened Lineages
  import H = Handlers

  /** The Workflows of the default tenant that a reconcile would write. */
  ghost function Unconverged(t: Rows): set<Key> {
    set k | k in t && IsReconciled(k) && !Converged(t[k])
  }

  // ----- what is counted -----

  /** How much a step adds to a counter: one if it changes the table and is of the actor that is counted. */
  function Counts(counted: bool, s: State, s': State): int {
    if counted && s'.table != s.table then 1 else 0
  }

  /** The handlers' counter goes up by one with each create or update that changes the table, the reconciler's
      with each reconcile that does; no other step moves either. */
  lemma CountersCount(s: State, a: Action)
    requires Inv(s) && FreshUid(s, a)
    ensures var s' := Step(s, a);
            && s'.apiWrites == s.apiWrites + Counts(a.FinishCreate? || a.FinishUpdate?, s, s')
            && s'.reconcilerWrites == s.reconcilerWrites + Counts(a.Reconcile?, s, s')
  {
    if a.FinishCreate? && IsCreating(s, a.op) {
      var p := s.pending[a.op];
      CreateEffect(s, a.op, a.uid, a.now);
      WroteIsChange(s, H.KeyFor(p.tenant, p.request), CreatedTable(s, a.op, a.uid, a.now));
    } else if a.FinishUpdate? && IsUpdating(s, a.op) {
      UpdateEffect(s, a.op);
      WroteIsChange(s, s.pending[a.op].current.key, UpdatedTable(s, a.op));
    } else if a.Reconcile? && a.key in s.snapshot {
      ReconcileEffect(s, a.key, a.readings);
      WroteIsChange(s, a.key, ReconciledTable(s, a.key, a.readings));
    }
  }

  lemma WroteIsChange(s: State, key: Key, t: Rows)
    requires Effect(s, key, t)
    ensures Wrote(s, key, t) <==> t != s.table
  {
  }

  // ----- the potential of one step -----

  /** A stored row can leave at most one more key unconverged. */
  lemma OneMore(t: Rows, key: Key, t': Rows)
    requires forall k :: k in t' && k != key ==> k in t && t'[k] == t[k]
    ensures |Unconverged(t')| <= |Unconverged(t)| + 1
  {
    assert Unconverged(t') <= Unconverged(t) + {key};
    Subset(Unconverged(t'), Unconverged(t) + {key});
  }

  lemma NoMore(t: Rows, t': Rows)
    requires forall k :: k in t' ==> k in t && t'[k] == t[k]
    ensures |Unconverged(t')| <= |Unconverged(t)|
  {
    assert Unconverged(t') <= Unconverged(t);
    Subset(Unconverged(t'), Unconverged(t));
  }

  lemma {:induction false} Subset<T>(a: set<T>, b: set<T>)
    requires a <= b
    ensures |a| <= |b|
    decreases |a|
  {
    if a == {} {
    } else {
      var x :| x in a;
      Subset(a - {x}, b - {x});
    }
  }

  /** Reconciling an unconverged row takes its key, and no other, out of the unconverged ones. */
  lemma OneFewerKey(t: Rows, key: Key, readings: Readings, t': Rows)
    requires key in t && IsReconciled(key) && t'.Keys == t.Keys
    requires t'[key] == ReconciledRow(t[key], readings) != t[key]
    requires forall k :: k in t && k != key ==> t'[k] == t[k]
    ensures |Unconverged(t')| == |Unconverged(t)| - 1
  {
    ReconcileConverges(t[key], readings);
    assert Unconverged(t') == Unconverged(t) - {key};
  }

  /** A successful reconcile of what was listed leaves one key fewer unconverged. */
  lemma OneFewer(s: State, key: Key, readings: Readings)
    requires Inv(s) && key in s.snapshot && SameIncarnation(s, Reconcile(key, readings))
    requires Wrote(s, key, ReconciledTable(s, key, readings))
    ensures |Unconverged(ReconciledTable(s, key, readings))| == |Unconverged(s.table)| - 1
  {
    var t := ReconciledTable(s, key, readings);
    ReconcilerOverwritesWhatItListed(s, key, readings);
    ReconcileEffect(s, key, readings);
    OneFewerKey(s.table, key, readings, t);
  }

  /** No step raises reconciler writes plus unconverged keys by more than it raises handler writes. */
  ghost predicate Paid(s: State, s': State) {
    s'.reconcilerWrites + |Unconverged(s'.table)| + s.apiWrites
      <= s.reconcilerWrites + |Unconverged(s.table)| + s'.apiWrites
  }

  lemma ApiWriteIsPaid(s: State, op: int, key: Key, t: Rows)
    requires Inv(s) && Effect(s, key, t)
    ensures Paid(s, AfterApiWrite(s, op, key, t))
  {
    if t != s.table {
      OneMore(s.table, key, t);
    }
  }

  lemma ReconcileIsPaid(s: State, key: Key, readings: Readings)
    requires Inv(s) && key in s.snapshot && SameIncarnation(s, Reconcile(key, readings))
    ensures Paid(s, AfterReconcilerWrite(s, key, ReconciledTable(s, key, readings)))
  {
    ReconcileEffect(s, key, readings);
    if Wrote(s, key, ReconciledTable(s, key, readings)) {
      OneFewer(s, key, readings);
    }
  }

  lemma CreateIsPaid(s: State, a: Action)
    requires Inv(s) && a.FinishCreate? && FreshUid(s, a)
    ensures Paid(s, Step(s, a))
  {
    if IsCreating(s, a.op) {
      var p := s.pending[a.op];
      CreateEffect(s, a.op, a.uid, a.now);
      ApiWriteIsPaid(s, a.op, H.KeyFor(p.tenant, p.request), CreatedTable(s, a.op, a.uid, a.now));
    }
  }

  lemma UpdateIsPaid(s: State, a: Action)
    requires Inv(s) && a.FinishUpdate?
    ensures Paid(s, Step(s, a))
  {
    if IsUpdating(s, a.op) {
      UpdateEffect(s, a.op);
      ApiWriteIsPaid(s, a.op, s.pending[a.op].current.key, UpdatedTable(s, a.op));
    }
  }

  lemma DeleteIsPaid(s: State, a: Action)
    requires a.Delete?
    ensures Paid(s, Step(s, a))
  {
    NoMore(s.table, Step(s, a).table);
  }

  lemma StepIsPaid(s: State, a: Action)
    requires Inv(s) && Allowed(OneIncarnation, s, a)
    ensures Paid(s, Step(s, a))
  {
    match a
    case FinishCreate(_, _, _) => CreateIsPaid(s, a);
    case FinishUpdate(_) => UpdateIsPaid(s, a);
    case Delete(_, _) => DeleteIsPaid(s, a);
    case Reconcile(key, readings) =>
      if key in s.snapshot {
        ReconcileIsPaid(s, key, readings);
      }
    case _ =>
  }

  /** In a run in which no pending write meets a re-created row only the keys that are not converged at
      the start count. */
  lemma {:induction false} BoundedChurnInPlace(s: State, run: seq<Action>)
    requires Inv(s) && IsRun(OneIncarnation, s, run)
    ensures var s' := Exec(s, run);
            s'.reconcilerWrites - s.reconcilerWrites + |Unconverged(s'.table)|
              <= s'.apiWrites - s.apiWrites + |Unconverged(s.table)|
    decreases |run|
  {
    if run == [] {
    } else {
      StepIsPaid(s, run[0]);
      StepKeepsInv(s, run[0]);
      BoundedChurnInPlace(Step(s, run[0]), run[1..]);
    }
  }

  // ----- every run, re-creations included -----

  /** The keys that a reconcile may still write: those that are not converged, and those whose row is not
      of the incarnation that was listed. */
  ghost function Due(s: State): set<Key> {
    set k | k in s.table && IsReconciled(k) && (!Converged(s.table[k]) || IsStale(s, k))
  }

  predicate IsStale(s: State, key: Key)
    requires key in s.table
  {
    key in s.snapshot && s.snapshot[key].uid != s.table[key].uid
  }

  /** No step raises reconciler writes plus keys that are due by more than it raises handler writes. */
  ghost predicate Covered(s: State, s': State) {
    s'.reconcilerWrites + |Due(s')| + s.apiWrites <= s.reconcilerWrites + |Due(s)| + s'.apiWrites
  }

  lemma ApiWriteIsCovered(s: State, op: int, key: Key, t: Rows)
    requires Effect(s, key, t)
    ensures Covered(s, AfterApiWrite(s, op, key, t))
  {
    var s' := AfterApiWrite(s, op, key, t);
    if t == s.table {
      assert Due(s') == Due(s);
    } else {
      assert Due(s') <= Due(s) + {key};
      Subset(Due(s'), Due(s) + {key});
    }
  }

  /** What a reconcile stores is converged, even over a row of another incarnation: spec, status and
      generation are all those of the listed record. */
  lemma WrittenIsConverged(s: State, key: Key, readings: Readings)
    requires Inv(s) && key in s.snapshot && Wrote(s, key, ReconciledTable(s, key, readings))
    ensures Converged(ReconciledTable(s, key, readings)[key])
  {
    var rec := s.snapshot[key];
    DesiredWriteKeeps(rec, readings);
    ComputeIsFixedPoint(rec.data.workflowSpec, rec.data.workflowStatus, rec.generation, readings, Readings(0, 0));
  }

  /** Before a reconcile stores a row, its key is due. */
  lemma WrittenWasDue(s: State, key: Key, readings: Readings)
    requires Inv(s) && key in s.snapshot && Wrote(s, key, ReconciledTable(s, key, readings))
    ensures key in Due(s)
  {
    ReconcilerOverwritesWhatItListed(s, key, readings);
    if s.snapshot[key].uid == s.table[key].uid {
      ReconcileConverges(s.table[key], readings);
    }
  }

  /** A reconcile that stores a row leaves one key fewer due, at least. */
  lemma WriteEndsDue(s: State, key: Key, t: Rows)
    requires key in Due(s) && key in t && t == s.table[key := t[key]] && Converged(t[key])
    ensures |Due(AfterReconcilerWrite(s, key, t))| <= |Due(s)| - 1
  {
    var s' := AfterReconcilerWrite(s, key, t);
    assert Due(s') <= Due(s) - {key};
    Subset(Due(s'), Due(s) - {key});
  }

  lemma NoWriteKeepsDue(s: State, key: Key)
    ensures |Due(AfterReconcilerWrite(s, key, s.table))| <= |Due(s)|
  {
    var s' := AfterReconcilerWrite(s, key, s.table);
    assert Due(s') <= Due(s);
    Subset(Due(s'), Due(s));
  }

  lemma ReconcileIsCovered(s: State, key: Key, readings: Readings)
    requires Inv(s) && key in s.snapshot
    ensures Covered(s, AfterReconcilerWrite(s, key, ReconciledTable(s, key, readings)))
  {
    var t := ReconciledTable(s, key, readings);
    ReconcileEffect(s, key, readings);
    if Wrote(s, key, t) {
      WrittenIsConverged(s, key, readings);
      WrittenWasDue(s, key, readings);
      WriteEndsDue(s, key, t);
    } else {
      assert t == s.table;
      NoWriteKeepsDue(s, key);
    }
  }

  lemma StepIsCovered(s: State, a: Action)
    requires Inv(s) && FreshUid(s, a)
    ensures Covered(s, Step(s, a))
  {
    var s' := Step(s, a);
    if a.FinishCreate? && IsCreating(s, a.op) {
      var p := s.pending[a.op];
      CreateEffect(s, a.op, a.uid, a.now);
      ApiWriteIsCovered(s, a.op, H.KeyFor(p.tenant, p.request), CreatedTable(s, a.op, a.uid, a.now));
    } else if a.FinishUpdate? && IsUpdating(s, a.op) {
      UpdateEffect(s, a.op);
      ApiWriteIsCovered(s, a.op, s.pending[a.op].current.key, UpdatedTable(s, a.op));
    } else if a.Reconcile? && a.key in s.snapshot {
      ReconcileIsCovered(s, a.key, a.readings);
    } else {
      QuietIsCovered(s, a);
    }
  }

  lemma QuietIsCovered(s: State, a: Action)
    requires a.FinishCreate? ==> !IsCreating(s, a.op)
    requires a.FinishUpdate? ==> !IsUpdating(s, a.op)
    requires a.Reconcile? ==> a.key !in s.snapshot
    ensures Covered(s, Step(s, a))
  {
    assert Due(Step(s, a)) <= Due(s);
    Subset(Due(Step(s, a)), Due(s));
  }

  /** Bounded churn.  In every run, rows deleted and created anew under the reconciler included, the
      reconciler stores at most as many rows as the handlers store, plus one for each key that was due at
      the start. */
  lemma {:induction false} BoundedChurn(s: State, run: seq<Action>)
    requires Inv(s) && IsRun(AnyRun, s, run)
    ensures var s' := Exec(s, run);
            s'.reconcilerWrites - s.reconcilerWrites + |Due(s')| <= s'.apiWrites - s.apiWrites + |Due(s)|
    decreases |run|
  {
    if run == [] {
    } else {
      StepIsCovered(s, run[0]);
      StepKeepsInv(s, run[0]);
      BoundedChurn(Step(s, run[0]), run[1..]);
    }
  }

  /** From the start, the reconciler never stores more rows than the handlers have stored. */
  lemma NoMoreReconcilesThanWrites(tenants: set<Str>, run: seq<Action>)
    requires IsRun(AnyRun, Init(tenants), run)
    ensures Exec(Init(tenants), run).reconcilerWrites <= Exec(Init(tenants), run).apiWrites
  {
    InitInv(tenants);
    BoundedChurn(Init(tenants), run);
    assert Due(Init(tenants)) == {};
  }

  // ----- an undisturbed pass of the machine -----

  /** The actions of a pass that visits these keys in this order with nothing in between. */
  function Visits(keys: seq<Key>, clock: Key -> Readings): seq<Action> {
    if keys == [] then [] else [Reconcile(keys[0], clock(keys[0]))] + Visits(keys[1..], clock)
  }

  ghost function KeySet(keys: seq<Key>): set<Key> {
    set k | k in keys
  }

  ghost predicate Distinct(keys: seq<Key>) {
    forall i, j :: 0 <= i < j < |keys| ==> keys[i] != keys[j]
  }

  lemma {:induction false} VisitsReconcile(s: State, t: Rows, done: set<Key>, keys: seq<Key>, clock: Key -> Readings)
    requires s.table == PartialPass(t, done, clock) && Distinct(keys) && H.WellKeyed(t)
    requires forall k :: k in keys ==> k in t && k !in done && k in s.snapshot && s.snapshot[k] == ToRecord(t[k])
    ensures Exec(s, Visits(keys, clock)).table == PartialPass(t, done + KeySet(keys), clock)
    decreases |keys|
  {
    if keys == [] {
      assert done + KeySet(keys) == done;
    } else {
      var k := keys[0];
      var s' := Step(s, Reconcile(k, clock(k)));
      VisitAdvances(t, done, clock, k);
      assert keys == [k] + keys[1..];
      VisitsReconcile(s', t, done + {k}, keys[1..], clock);
      assert Visits(keys, clock)[1..] == Visits(keys[1..], clock);
      assert done + {k} + KeySet(keys[1..]) == done + KeySet(keys);
    }
  }

  /** A pass leaves nothing to visit of what it visits. */
  lemma {:induction false} VisitsEmpty(s: State, keys: seq<Key>, clock: Key -> Readings)
    ensures Exec(s, Visits(keys, clock)).snapshot == s.snapshot - KeySet(keys)
    decreases |keys|
  {
    if keys == [] {
      assert s.snapshot - KeySet(keys) == s.snapshot;
    } else {
      var s' := Step(s, Reconcile(keys[0], clock(keys[0])));
      assert s'.snapshot == s.snapshot - {keys[0]};
      VisitsEmpty(s', keys[1..], clock);
      assert keys == [keys[0]] + keys[1..];
      assert KeySet(keys) == {keys[0]} + KeySet(keys[1..]);
      assert Visits(keys, clock)[1..] == Visits(keys[1..], clock);
    }
  }

  /** Quiescent convergence of the machine.  From any state of any run, a listing followed by visits to
      all listed keys in any order, with nothing in between, leaves the table of an undisturbed pass:
      every Workflow of the default tenant is converged, nothing that was listed, now or earlier, is left to
      visit, and the pass after that stores nothing. */
  lemma QuietPassConverges(
      tenants: set<Str>, run: seq<Action>, keys: seq<Key>, clock: Key -> Readings,
      keys': seq<Key>, later: Key -> Readings)
    requires IsRun(AnyRun, Init(tenants), run)
    requires var t := Exec(Init(tenants), run).table;
             && Distinct(keys) && KeySet(keys) == (set k | k in t && IsReconciled(k))
             && Distinct(keys') && KeySet(keys') == KeySet(keys)
    ensures var s := Exec(Init(tenants), run);
            var first := Exec(Step(s, ListWorkflows), Visits(keys, clock));
            var second := Exec(Step(first, ListWorkflows), Visits(keys', later));
            && first.table == Pass(s.table, clock)
            && Unconverged(first.table) == {}
            && first.snapshot == map[]
            && second.table == first.table
  {
    var s := Exec(Init(tenants), run);
    InitInv(tenants);
    RunKeepsInv(AnyRun, Init(tenants), run);
    var first := Exec(Step(s, ListWorkflows), Visits(keys, clock));
    OnePass(s, keys, clock);
    VisitsEmpty(Step(s, ListWorkflows), keys, clock);
    assert Step(s, ListWorkflows).snapshot.Keys == KeySet(keys);
    PassConverges(s.table, clock, later);
    OnePass(first, keys', later);
  }

  lemma OnePass(s: State, keys: seq<Key>, clock: Key -> Readings)
    requires H.WellKeyed(s.table)
    requires Distinct(keys) && KeySet(keys) == (set k | k in s.table && IsReconciled(k))
    ensures Exec(Step(s, ListWorkflows), Visits(keys, clock)).table == Pass(s.table, clock)
    ensures H.WellKeyed(Pass(s.table, clock))
  {
    var t := s.table;
    assert PartialPass(t, {}, clock) == t;
    forall k | k in keys ensures k in t && IsReconciled(k) {
      assert k in KeySet(keys);
    }
    VisitsReconcile(Step(s, ListWorkflows), t, {}, keys, clock);
    assert {} + KeySet(keys) == KeySet(keys);
    assert PartialPass(t, KeySet(keys), clock) == Pass(t, clock);
    forall k | k in t ensures Pass(t, clock)[k].key == k {
      ReconcileConverges(t[k], clock(k));
    }
  }
}
