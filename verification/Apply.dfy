/** `apply`: create each resource of a file, or update it in place under the version just read. */
module Apply {
  import opened Bytes
  import opened Api
  import opened Table
  import opened Store
  import opened Services
  import opened Lineages
  import opened Outcomes
  import C = ControlPlane
  import H = Handlers

  datatype Verb = Created | Configured

  function Versioned(r: Resource, version: string): Resource {
    H.WithMeta(r, H.MetaOf(r).(resourceVersion := version))
  }

  // ----- the specification -----

  function ApplyResource(t: Rows, tenants: set<Str>, tenant: Str, r: Resource, uid: string, now: Time):
      (Rows, Result<Verb, Code>)
  {
    match H.Get(t, tenant, H.TargetOf(r))
    case Err(NotFound) =>
      (match H.Create(t, tenants, tenant, r, uid, now)
       case (t', Err(e)) => (t', Err(e))
       case (t', Ok(_)) => (t', Ok(Created)))
    case Err(e) => (t, Err(e))
    case Ok(current) =>
      (match H.Update(t, tenant, Versioned(r, H.MetaOf(current).resourceVersion))
       case (t', Err(e)) => (t', Err(e))
       case (t', Ok(_)) => (t', Ok(Configured)))
  }

  /** From the i-th resource of the file on; the first error ends it.  The i-th create draws the i-th uid. */
  function ApplyFrom(
      t: Rows, tenants: set<Str>, tenant: Str, rs: seq<Resource>, i: nat, uids: nat -> string, now: Time,
      verbs: seq<Verb>):
      (Rows, Result<seq<Verb>, Code>)
    requires i <= |rs|
    decreases |rs| - i
  {
    if i == |rs| then (t, Ok(verbs))
    else
      match ApplyResource(t, tenants, tenant, rs[i], uids(i), now)
      case (t', Err(e)) => (t', Err(e))
      case (t', Ok(verb)) => ApplyFrom(t', tenants, tenant, rs, i + 1, uids, now, verbs + [verb])
  }

  class Client {
    const store: SqliteStore
    const projects: ProjectService
    const workflows: WorkflowService

    constructor (projects: ProjectService, workflows: WorkflowService)
      requires projects.store == workflows.store
      ensures this.projects == projects && this.workflows == workflows && this.store == projects.store
    {
      this.store := projects.store;
      this.projects := projects;
      this.workflows := workflows;
    }

    ghost predicate Valid()
      reads store
    {
      projects.store == store && workflows.store == store && store.Valid()
    }

    method ApplyProject(tenant: Str, p: Resource, uid: string, now: Time) returns (answer: Result<Verb, Code>)
      requires p.Project? && Valid()
      modifies store
      ensures Valid()
      ensures (store.Contents(), answer) == ApplyResource(old(store.Contents()), store.tenants, tenant, p, uid, now)
    {
      KindsDiffer();
      var current := projects.GetProject(tenant, H.MetaOf(p).name);
      if current == Err(NotFound) {
        var created := projects.CreateProject(tenant, p, uid, now);
        return if created.Err? then Err(created.error) else Ok(Created);
      }
      if current.Err? {
        return Err(current.error);
      }
      var updated := projects.UpdateProject(tenant, Versioned(p, H.MetaOf(current.value).resourceVersion));
      return if updated.Err? then Err(updated.error) else Ok(Configured);
    }

    method ApplyWorkflow(tenant: Str, w: Resource, uid: string, now: Time) returns (answer: Result<Verb, Code>)
      requires w.Workflow? && Valid()
      modifies store
      ensures Valid()
      ensures (store.Contents(), answer) == ApplyResource(old(store.Contents()), store.tenants, tenant, w, uid, now)
    {
      var current := workflows.GetWorkflow(tenant, H.MetaOf(w).project, H.MetaOf(w).name);
      if current == Err(NotFound) {
        var created := workflows.CreateWorkflow(tenant, w, uid, now);
        return if created.Err? then Err(created.error) else Ok(Created);
      }
      if current.Err? {
        return Err(current.error);
      }
      var updated := workflows.UpdateWorkflow(tenant, Versioned(w, H.MetaOf(current.value).resourceVersion));
      return if updated.Err? then Err(updated.error) else Ok(Configured);
    }

    method RunApply(tenant: Str, rs: seq<Resource>, uids: nat -> string, now: Time)
        returns (answer: Result<seq<Verb>, Code>)
      requires Valid()
      modifies store
      ensures Valid()
      ensures (store.Contents(), answer)
                == ApplyFrom(old(store.Contents()), store.tenants, tenant, rs, 0, uids, now, [])
    {
      var verbs: seq<Verb> := [];
      for i := 0 to |rs|
        invariant Valid()
        invariant ApplyFrom(store.Contents(), store.tenants, tenant, rs, i, uids, now, verbs)
                    == ApplyFrom(old(store.Contents()), store.tenants, tenant, rs, 0, uids, now, [])
      {
        var verb: Result<Verb, Code>;
        if rs[i].Project? {
          verb := ApplyProject(tenant, rs[i], uids(i), now);
        } else {
          verb := ApplyWorkflow(tenant, rs[i], uids(i), now);
        }
        if verb.Err? {
          return Err(verb.error);
        }
        verbs := verbs + [verb.value];
      }
      return Ok(verbs);
    }
  }

  // ----- applying -----

  /** The table holds the resource as the file has it: its spec and its labels. */
  ghost predicate Applied(t: Rows, tenant: Str, r: Resource) {
    var key := H.KeyFor(tenant, r);
    && Held(t, tenant, r)
    && H.ColumnsAgree(t[key])
    && SameSpec(t[key].data, r)
    && t[key].labels == H.MetaOf(r).labels
  }

  /** The table holds some version of the resource. */
  ghost predicate Held(t: Rows, tenant: Str, r: Resource) {
    var key := H.KeyFor(tenant, r);
    H.Named(r) && key in t && t[key].key == key && KindOf(t[key].data) == KindOf(r)
  }

  lemma ApplyResourceApplies(t: Rows, tenants: set<Str>, tenant: Str, r: Resource, uid: string, now: Time)
    requires H.WellKeyed(t) && ApplyResource(t, tenants, tenant, r, uid, now).1.Ok?
    ensures var t' := ApplyResource(t, tenants, tenant, r, uid, now).0;
            && H.WellKeyed(t') && Applied(t', tenant, r)
            && t' == t[H.KeyFor(tenant, r) := t'[H.KeyFor(tenant, r)]]
  {
    KindsDiffer();
    var key := H.KeyFor(tenant, r);
    if H.Get(t, tenant, H.TargetOf(r)).Err? {
      assert H.MarshalForStore(tenant, H.StampedForCreate(tenant, r)).key == key;
    } else {
      var v := Versioned(r, H.MetaOf(H.Get(t, tenant, H.TargetOf(r)).value).resourceVersion);
      assert H.KeyFor(tenant, v) == key;
      assert H.RecordForUpdate(tenant, v, ToRecord(t[key])).key == key;
    }
  }

  /** What applying one resource answers: Configured if it is there, Created if it was not and could be
      created, and otherwise why not. */
  lemma ApplyAnswers(t: Rows, tenants: set<Str>, tenant: Str, r: Resource, uid: string, now: Time)
    requires H.WellKeyed(t)
    ensures var (t', answer) := ApplyResource(t, tenants, tenant, r, uid, now);
            && (answer.Err? ==> t' == t)
            && (answer == Err(InvalidArgument) <==> Nameless(r))
            && (!Nameless(r) ==>
                  var key := KeyNamed(tenant, r);
                  && (answer == Ok(Configured) <==> key in t && !WrongKind(t, key))
                  && (answer == Ok(Created) <==>
                        key !in t && HasProject(t, tenant, r) && tenant in tenants && !UidTaken(t, uid))
                  && (answer == Err(FailedPrecondition) <==> key !in t && !HasProject(t, tenant, r))
                  && (answer.Err? && !Nameless(r) ==> answer.error in {FailedPrecondition, Internal}))
  {
    KindsDiffer();
    var key := H.KeyFor(tenant, r);
    CreateAnswers(t, tenants, tenant, r, uid, now);
    CreateChanges(t, tenants, tenant, r, uid, now);
    GetAnswers(t, tenant, H.TargetOf(r));
    if !Nameless(r) && key in t {
      DecimalRoundTrip(t[key].rv);
      var update := Versioned(r, Decimal(t[key].rv));
      UpdateAnswers(t, tenant, update);
      UpdateChanges(t, tenant, update);
    }
  }

  /** What a resource is like once it has been applied: the spec of the file and all of its metadata that
      clients own; the status of the file if the resource was there, and none if it was created. */
  lemma ApplyKeeps(t: Rows, tenants: set<Str>, tenant: Str, r: Resource, uid: string, now: Time)
    requires H.WellKeyed(t) && ApplyResource(t, tenants, tenant, r, uid, now).1.Ok?
    ensures r.metadata.Some?
    ensures var (t', verb) := ApplyResource(t, tenants, tenant, r, uid, now);
            var got := H.Get(t', tenant, H.TargetOf(r));
            && got.Ok? && got.value.metadata.Some? && (got.value.Project? <==> r.Project?)
            && var meta, sent := got.value.metadata.value, r.metadata.value;
               && meta.name == sent.name && meta.labels == sent.labels && meta.annotations == sent.annotations
               && meta.finalizers == sent.finalizers && meta.deletionTimestamp == sent.deletionTimestamp
               && (r.Project? ==>
                     && got.value.projectSpec == r.projectSpec
                     && got.value.projectStatus == (if verb == Ok(Created) then None else r.projectStatus))
               && (r.Workflow? ==>
                     && meta.project == sent.project
                     && got.value.workflowSpec == r.workflowSpec
                     && got.value.workflowStatus == (if verb == Ok(Created) then None else r.workflowStatus))
  {
    KindsDiffer();
    var key := H.KeyFor(tenant, r);
    ApplyAnswers(t, tenants, tenant, r, uid, now);
    if key in t {
      DecimalRoundTrip(t[key].rv);
      var update := Versioned(r, Decimal(t[key].rv));
      H.UpdateReadsBack(t, tenant, update);
      UpdateKeeps(t, tenant, update);
    } else {
      H.CreateReadsBack(t, tenants, tenant, r, uid, now);
      CreateKeeps(t, tenants, tenant, r, uid, now);
    }
  }

  /** What applying a file without an error answers: for each resource, in order, Created exactly if it was
      not there and the file had not named it before. */
  lemma {:induction false} ApplyVerbs(
      t: Rows, tenants: set<Str>, tenant: Str, rs: seq<Resource>, i: nat, uids: nat -> string, now: Time,
      verbs: seq<Verb>)
    requires i <= |rs| && H.WellKeyed(t) && ApplyFrom(t, tenants, tenant, rs, i, uids, now, verbs).1.Ok?
    ensures var all := ApplyFrom(t, tenants, tenant, rs, i, uids, now, verbs).1.value;
            && |all| == |verbs| + (|rs| - i) && all[..|verbs|] == verbs
            && VerbsTell(t, tenant, rs, i, all, |verbs|)
    decreases |rs| - i
  {
    if i < |rs| {
      var (t', verb) := ApplyResource(t, tenants, tenant, rs[i], uids(i), now);
      ApplyResourceApplies(t, tenants, tenant, rs[i], uids(i), now);
      ApplyAnswers(t, tenants, tenant, rs[i], uids(i), now);
      ApplyVerbs(t', tenants, tenant, rs, i + 1, uids, now, verbs + [verb.value]);
      var all := ApplyFrom(t, tenants, tenant, rs, i, uids, now, verbs).1.value;
      FirstVerb(t, t', tenant, rs, i, verbs, verb.value, all);
    }
  }

  /** The verbs from the n-th on tell of the resources from the i-th on which of them were new. */
  ghost predicate VerbsTell(t: Rows, tenant: Str, rs: seq<Resource>, i: nat, all: seq<Verb>, n: nat)
    requires i <= |rs| && |all| == n + (|rs| - i)
  {
    forall j :: i <= j < |rs| ==> (all[n + (j - i)] == Created <==> IsNew(t, tenant, rs, i, j))
  }

  lemma FirstVerb(
      t: Rows, t': Rows, tenant: Str, rs: seq<Resource>, i: nat, verbs: seq<Verb>, verb: Verb, all: seq<Verb>)
    requires i < |rs| && |all| == |verbs| + (|rs| - i) && all[..|verbs| + 1] == verbs + [verb]
    requires var key := H.KeyFor(tenant, rs[i]); key in t' && t' == t[key := t'[key]]
    requires verb == Created <==> H.KeyFor(tenant, rs[i]) !in t
    requires VerbsTell(t', tenant, rs, i + 1, all, |verbs| + 1)
    ensures all[..|verbs|] == verbs && VerbsTell(t, tenant, rs, i, all, |verbs|)
  {
    assert all[..|verbs|] == all[..|verbs| + 1][..|verbs|];
    assert all[|verbs|] == all[..|verbs| + 1][|verbs|];
    forall j | i < j < |rs| ensures all[|verbs| + (j - i)] == Created <==> IsNew(t, tenant, rs, i, j) {
      NewLater(t, t', tenant, rs, i, j);
    }
  }

  /** The j-th resource is not in the table and not named from the i-th on before. */
  predicate IsNew(t: Rows, tenant: Str, rs: seq<Resource>, i: nat, j: nat)
    requires i <= j < |rs|
  {
    H.KeyFor(tenant, rs[j]) !in t && forall m :: i <= m < j ==> H.KeyFor(tenant, rs[m]) != H.KeyFor(tenant, rs[j])
  }

  lemma NewLater(t: Rows, t': Rows, tenant: Str, rs: seq<Resource>, i: nat, j: nat)
    requires i < j < |rs|
    requires var key := H.KeyFor(tenant, rs[i]); key in t' && t' == t[key := t'[key]]
    ensures IsNew(t, tenant, rs, i, j) <==> IsNew(t', tenant, rs, i + 1, j)
  {
  }

  /** A file that fails has been applied up to the resource that fails, which changes nothing, and the error
      is the one of that resource. */
  lemma {:induction false} ApplyStopsAtFirstError(
      t: Rows, tenants: set<Str>, tenant: Str, rs: seq<Resource>, i: nat, uids: nat -> string, now: Time,
      verbs: seq<Verb>)
      returns (j: nat, t': Rows)
    requires i <= |rs| && H.WellKeyed(t) && ApplyFrom(t, tenants, tenant, rs, i, uids, now, verbs).1.Err?
    ensures i <= j < |rs|
    ensures ApplyFrom(t, tenants, tenant, rs[..j], i, uids, now, verbs).0 == t'
    ensures ApplyFrom(t, tenants, tenant, rs[..j], i, uids, now, verbs).1.Ok?
    ensures ApplyResource(t', tenants, tenant, rs[j], uids(j), now).1.Err?
    ensures ApplyFrom(t, tenants, tenant, rs, i, uids, now, verbs)
              == (t', Err(ApplyResource(t', tenants, tenant, rs[j], uids(j), now).1.error))
    decreases |rs| - i
  {
    var (t1, verb) := ApplyResource(t, tenants, tenant, rs[i], uids(i), now);
    if verb.Err? {
      j, t' := i, t;
      ApplyAnswers(t, tenants, tenant, rs[i], uids(i), now);
    } else {
      ApplyResourceApplies(t, tenants, tenant, rs[i], uids(i), now);
      j, t' := ApplyStopsAtFirstError(t1, tenants, tenant, rs, i + 1, uids, now, verbs + [verb.value]);
      assert rs[..j][i] == rs[i];
    }
  }

  /** Of the first n resources of the file no later one has the key of the j-th. */
  predicate IsLast(tenant: Str, rs: seq<Resource>, j: nat, n: nat)
    requires j < n <= |rs|
  {
    forall k :: j < k < n ==> H.KeyFor(tenant, rs[k]) != H.KeyFor(tenant, rs[j])
  }

  /** Of the first n resources of the file all are held, and those not named again are applied. */
  ghost predicate AllApplied(t: Rows, tenant: Str, rs: seq<Resource>, n: nat)
    requires n <= |rs|
  {
    forall j :: 0 <= j < n ==> Held(t, tenant, rs[j]) && (IsLast(tenant, rs, j, n) ==> Applied(t, tenant, rs[j]))
  }

  /** A file that is applied without an error leaves every resource in it as the file has it, by its last
      word on the resource if it names it more than once. */
  lemma {:induction false} ApplyFileApplies(
      t: Rows, tenants: set<Str>, tenant: Str, rs: seq<Resource>, i: nat, uids: nat -> string, now: Time,
      verbs: seq<Verb>)
    requires i <= |rs| && H.WellKeyed(t) && AllApplied(t, tenant, rs, i)
    requires ApplyFrom(t, tenants, tenant, rs, i, uids, now, verbs).1.Ok?
    ensures var t' := ApplyFrom(t, tenants, tenant, rs, i, uids, now, verbs).0;
            H.WellKeyed(t') && AllApplied(t', tenant, rs, |rs|)
    decreases |rs| - i
  {
    if i < |rs| {
      var (t', verb) := ApplyResource(t, tenants, tenant, rs[i], uids(i), now);
      ApplyResourceApplies(t, tenants, tenant, rs[i], uids(i), now);
      NextApplied(t, t', tenant, rs, i);
      ApplyFileApplies(t', tenants, tenant, rs, i + 1, uids, now, verbs + [verb.value]);
    }
  }

  lemma NextApplied(t: Rows, t': Rows, tenant: Str, rs: seq<Resource>, i: nat)
    requires i < |rs| && AllApplied(t, tenant, rs, i)
    requires var key := H.KeyFor(tenant, rs[i]); key in t' && t' == t[key := t'[key]] && Applied(t', tenant, rs[i])
    ensures AllApplied(t', tenant, rs, i + 1)
  {
    forall j | 0 <= j < i
      ensures Held(t', tenant, rs[j])
      ensures IsLast(tenant, rs, j, i + 1) ==> Applied(t', tenant, rs[j])
    {
      if IsLast(tenant, rs, j, i + 1) {
        assert IsLast(tenant, rs, j, i);
      }
      if H.KeyFor(tenant, rs[j]) == H.KeyFor(tenant, rs[i]) {
        assert t'[H.KeyFor(tenant, rs[j])].key.kind == KindOf(rs[j]) == KindOf(rs[i]);
      }
    }
  }

  // ----- applying again -----

  /** One more version of a row: of another generation exactly if it is of another spec. */
  predicate Reapplied(row: Row, row': Row, r: Resource) {
    && row' == row.(rv := row.rv + 1, generation := row'.generation, labels := H.MetaOf(r).labels, data := row'.data)
    && row'.generation == row.generation + (if SameSpec(row.data, r) then 0 else 1)
    && SameSpec(row'.data, r)
  }

  /** Applying a resource that is there updates it. */
  lemma ReapplyResource(t: Rows, tenants: set<Str>, tenant: Str, r: Resource, uid: string, now: Time)
    requires H.WellKeyed(t) && Held(t, tenant, r)
    ensures var (t', verb) := ApplyResource(t, tenants, tenant, r, uid, now);
            var key := H.KeyFor(tenant, r);
            && verb == Ok(Configured)
            && key in t' && t' == t[key := t'[key]] && Reapplied(t[key], t'[key], r)
            && H.WellKeyed(t') && Held(t', tenant, r)
  {
    DecimalRoundTrip(t[H.KeyFor(tenant, r)].rv);
  }

  ghost predicate AllHeld(t: Rows, tenant: Str, rs: seq<Resource>) {
    forall j :: 0 <= j < |rs| ==> Held(t, tenant, rs[j])
  }

  /** Some resource of the file, from the i-th on, has this key. */
  ghost predicate Names(tenant: Str, rs: seq<Resource>, i: nat, key: Key) {
    exists j :: i <= j < |rs| && H.KeyFor(tenant, rs[j]) == key
  }

  /** All resources of the file with this key, from the i-th on, have the spec of this row. */
  ghost predicate OneSpec(tenant: Str, rs: seq<Resource>, i: nat, key: Key, row: Row) {
    forall j :: i <= j < |rs| && H.KeyFor(tenant, rs[j]) == key ==> SameSpec(row.data, rs[j])
  }

  /** Rows that the file does not name are left alone; the others keep their identity, and their
      generation exactly if the file says nothing else about their spec than they do. */
  ghost predicate Touches(t: Rows, t': Rows, tenant: Str, rs: seq<Resource>, i: nat) {
    && t'.Keys == t.Keys
    && forall k :: k in t ==>
         if Names(tenant, rs, i, k) then TouchedRow(tenant, rs, i, k, t[k], t'[k]) else t'[k] == t[k]
  }

  ghost predicate TouchedRow(tenant: Str, rs: seq<Resource>, i: nat, key: Key, row: Row, row': Row) {
    && row'.key == row.key && row'.uid == row.uid && row'.createdAt == row.createdAt
    && row'.rv > row.rv && row'.generation >= row.generation
    && (row'.generation == row.generation <==> OneSpec(tenant, rs, i, key, row))
  }

  lemma TouchesMore(t: Rows, t1: Rows, t2: Rows, tenant: Str, rs: seq<Resource>, i: nat)
    requires i < |rs| && Touches(t1, t2, tenant, rs, i + 1)
    requires var key := H.KeyFor(tenant, rs[i]);
             key in t && key in t1 && t1 == t[key := t1[key]] && Reapplied(t[key], t1[key], rs[i])
    ensures Touches(t, t2, tenant, rs, i)
  {
    var key := H.KeyFor(tenant, rs[i]);
    forall k | k in t
      ensures if Names(tenant, rs, i, k) then TouchedRow(tenant, rs, i, k, t[k], t2[k]) else t2[k] == t[k]
    {
      if k == key {
        SpecsFrom(tenant, rs, i, t[key], t1[key]);
        assert Names(tenant, rs, i, key);
      } else {
        assert Names(tenant, rs, i, k) <==> Names(tenant, rs, i + 1, k);
        assert OneSpec(tenant, rs, i, k, t[k]) <==> OneSpec(tenant, rs, i + 1, k, t[k]);
      }
    }
  }

  lemma SpecsFrom(tenant: Str, rs: seq<Resource>, i: nat, row: Row, row1: Row)
    requires i < |rs| && Reapplied(row, row1, rs[i])
    ensures var key := H.KeyFor(tenant, rs[i]);
            && (OneSpec(tenant, rs, i, key, row) <==>
                  SameSpec(row.data, rs[i]) && OneSpec(tenant, rs, i + 1, key, row1))
            && (!Names(tenant, rs, i + 1, key) ==> OneSpec(tenant, rs, i + 1, key, row1))
  {
    var key := H.KeyFor(tenant, rs[i]);
    if SameSpec(row.data, rs[i]) {
      assert forall j :: i < j < |rs| ==> (SameSpec(row.data, rs[j]) <==> SameSpec(row1.data, rs[j]));
    }
  }

  /** One resource of a file that the table already holds. */
  lemma ReapplyNext(
      t: Rows, tenants: set<Str>, tenant: Str, rs: seq<Resource>, i: nat, uids: nat -> string, now: Time,
      verbs: seq<Verb>)
      returns (t1: Rows)
    requires i < |rs| && H.WellKeyed(t) && AllHeld(t, tenant, rs)
    ensures ApplyFrom(t, tenants, tenant, rs, i, uids, now, verbs)
              == ApplyFrom(t1, tenants, tenant, rs, i + 1, uids, now, verbs + [Configured])
    ensures var key := H.KeyFor(tenant, rs[i]);
            && key in t && key in t1 && t1 == t[key := t1[key]] && Reapplied(t[key], t1[key], rs[i])
            && H.WellKeyed(t1) && AllHeld(t1, tenant, rs)
  {
    ReapplyResource(t, tenants, tenant, rs[i], uids(i), now);
    t1 := ApplyResource(t, tenants, tenant, rs[i], uids(i), now).0;
  }

  predicate AllConfigured(verbs: seq<Verb>) {
    forall v :: v in verbs ==> v == Configured
  }

  /** What applying the rest of a file does to a table that already holds all of it. */
  lemma {:induction false} ReapplyFrom(
      t: Rows, tenants: set<Str>, tenant: Str, rs: seq<Resource>, i: nat, uids: nat -> string, now: Time,
      verbs: seq<Verb>)
      returns (t': Rows, all: seq<Verb>)
    requires i <= |rs| && H.WellKeyed(t) && AllHeld(t, tenant, rs)
    requires |verbs| == i && AllConfigured(verbs)
    ensures ApplyFrom(t, tenants, tenant, rs, i, uids, now, verbs) == (t', Ok(all))
    ensures |all| == |rs| && AllConfigured(all)
    ensures Touches(t, t', tenant, rs, i)
    decreases |rs| - i
  {
    if i == |rs| {
      t', all := t, verbs;
      assert forall k :: !Names(tenant, rs, i, k);
    } else {
      var t1 := ReapplyNext(t, tenants, tenant, rs, i, uids, now, verbs);
      t', all := ReapplyFrom(t1, tenants, tenant, rs, i + 1, uids, now, verbs + [Configured]);
      TouchesMore(t, t1, t', tenant, rs, i);
    }
  }

  /** Re-applying a file.  If a file was applied without an error, applying it again with nothing in
      between succeeds, reports every resource as configured, leaves all other rows alone, and moves no
      spec, label, uid or creation time.  A generation moves exactly if the file names the resource with
      more than one spec. */
  lemma ReapplyIsIdempotent(
      t: Rows, tenants: set<Str>, tenant: Str, rs: seq<Resource>, uids: nat -> string, now: Time,
      uids': nat -> string, later: Time)
    requires H.WellKeyed(t)
    requires ApplyFrom(t, tenants, tenant, rs, 0, uids, now, []).1.Ok?
    ensures var t1 := ApplyFrom(t, tenants, tenant, rs, 0, uids, now, []).0;
            var (t2, answer) := ApplyFrom(t1, tenants, tenant, rs, 0, uids', later, []);
            && answer.Ok? && |answer.value| == |rs| && AllConfigured(answer.value)
            && AllApplied(t1, tenant, rs, |rs|) && AllApplied(t2, tenant, rs, |rs|)
            && Touches(t1, t2, tenant, rs, 0)
            && forall k :: k in t1 ==> SameSpec(t2[k].data, t1[k].data) && t2[k].labels == t1[k].labels
  {
    ApplyFileApplies(t, tenants, tenant, rs, 0, uids, now, []);
    var t1 := ApplyFrom(t, tenants, tenant, rs, 0, uids, now, []).0;
    var t2, all := ReapplyFrom(t1, tenants, tenant, rs, 0, uids', later, []);
    ApplyFileApplies(t1, tenants, tenant, rs, 0, uids', later, []);
    forall k | k in t1 ensures SameSpec(t2[k].data, t1[k].data) && t2[k].labels == t1[k].labels {
      if Names(tenant, rs, 0, k) {
        var j := LastNaming(tenant, rs, k, |rs|);
        assert Applied(t1, tenant, rs[j]) && Applied(t2, tenant, rs[j]);
      }
    }
  }

  lemma {:induction false} LastNaming(tenant: Str, rs: seq<Resource>, key: Key, n: nat) returns (j: nat)
    requires n <= |rs| && exists i :: 0 <= i < n && H.KeyFor(tenant, rs[i]) == key
    ensures j < n && H.KeyFor(tenant, rs[j]) == key && IsLast(tenant, rs, j, n)
  {
    if H.KeyFor(tenant, rs[n - 1]) == key {
      j := n - 1;
    } else {
      j := LastNaming(tenant, rs, key, n - 1);
    }
  }

  // ----- applying while others write -----

  /** What `apply` sends as an update when its get has answered this. */
  function UpdateAfterGet(r: Resource, got: Resource): Resource {
    Versioned(r, H.MetaOf(got).resourceVersion)
  }

  /** It names the version of the row that the get has found. */
  lemma GetGivesVersion(s: C.State, tenant: Str, r: Resource)
    requires C.Inv(s) && H.Get(s.table, tenant, H.TargetOf(r)).Ok?
    ensures var key := H.KeyFor(tenant, r);
            && key in s.table
            && UpdateAfterGet(r, H.Get(s.table, tenant, H.TargetOf(r)).value) == Versioned(r, Decimal(s.table[key].rv))
  {
  }

  lemma GotVersionStays(s: C.State, s': C.State, tenant: Str, r: Resource)
    requires C.Inv(s) && C.Grows(s, s') && H.KeyFor(tenant, r) in s.table
    ensures var row := s.table[H.KeyFor(tenant, r)];
            row.uid in s'.history && C.HonestToken(s'.history[row.uid], Versioned(r, Decimal(row.rv)))
  {
    var row := s.table[H.KeyFor(tenant, r)];
    var h, h' := s.history[row.uid], s'.history[row.uid];
    assert h'[|h| - 1] == row;
    assert H.MetaOf(Versioned(r, Decimal(row.rv))).resourceVersion == Decimal(h'[|h| - 1].rv);
  }

  /** `apply` is an honest client: whatever happens after its get, as long as the row is not created anew,
      its update carries a version the row has had; its status is honest too if the file has none. */
  lemma ApplyIsHonest(
      d: C.Discipline, s: C.State, meanwhile: seq<C.Action>, op: int, tenant: Str, r: Resource)
    requires C.Inv(s) && H.Get(s.table, tenant, H.TargetOf(r)).Ok? && C.IsRun(C.AnyRun, s, meanwhile)
    requires var key, s' := H.KeyFor(tenant, r), C.Exec(s, meanwhile);
             key in s.table && key in s'.table ==> s'.table[key].uid == s.table[key].uid
    requires d == C.HonestClients && r.Workflow? ==> r.workflowStatus.None?
    ensures var update := UpdateAfterGet(r, H.Get(s.table, tenant, H.TargetOf(r)).value);
            C.HonestRequest(d, C.Exec(s, meanwhile), C.BeginUpdate(op, tenant, update))
  {
    GetGivesVersion(s, tenant, r);
    C.RunKeepsInv(C.AnyRun, s, meanwhile);
    GotVersionStays(s, C.Exec(s, meanwhile), tenant, r);
  }

  /** Versions are not given out twice. */
  lemma SameVersionIsSameRow(s: C.State, s': C.State, key: Key)
    requires C.Inv(s) && C.Inv(s') && C.Grows(s, s')
    requires key in s.table && key in s'.table && s'.table[key].uid == s.table[key].uid
    ensures Decimal(s.table[key].rv) == Decimal(s'.table[key].rv) <==> s'.table[key] == s.table[key]
  {
    var row, row' := s.table[key], s'.table[key];
    DecimalInjective(row.rv, row'.rv);
    var h, h' := s.history[row.uid], s'.history[row.uid];
    assert h <= h' && h[|h| - 1] == row && h'[|h'| - 1] == row';
    assert C.Lineage(row.uid, h) && C.Lineage(row.uid, h');
  }

  /** As long as the row is not created anew, the update of `apply` is stored exactly if the row is then
      still as the get of `apply` found it, whatever happened before and after the update's own read. */
  lemma ApplyStoresExactly(
      s: C.State, run: seq<C.Action>, op: int, tenant: Str, r: Resource, current: Record)
    requires C.Inv(s) && H.Get(s.table, tenant, H.TargetOf(r)).Ok? && C.IsRun(C.AnyRun, s, run)
    requires var key, s' := H.KeyFor(tenant, r), C.Exec(s, run);
             key in s.table && key in s'.table ==> s'.table[key].uid == s.table[key].uid
    requires var update, s' := UpdateAfterGet(r, H.Get(s.table, tenant, H.TargetOf(r)).value), C.Exec(s, run);
             op in s'.pending && s'.pending[op] == C.Updating(tenant, update, current)
    ensures var key, s' := H.KeyFor(tenant, r), C.Exec(s, run);
            C.Wrote(s', key, C.UpdatedTable(s', op)) <==>
              key in s.table && key in s'.table && s'.table[key] == s.table[key]
  {
    var key := H.KeyFor(tenant, r);
    var s' := C.Exec(s, run);
    GetGivesVersion(s, tenant, r);
    C.RunKeepsInv(C.AnyRun, s, run);
    StoredOnVersion(s', op, tenant, r, s.table[key].rv, current);
    if key in s'.table {
      SameVersionIsSameRow(s, s', key);
    }
  }

  lemma StoredOnVersion(s: C.State, op: int, tenant: Str, r: Resource, rv: nat, current: Record)
    requires C.Inv(s) && op in s.pending
    requires s.pending[op] == C.Updating(tenant, Versioned(r, Decimal(rv)), current)
    ensures var key := H.KeyFor(tenant, r);
            C.Wrote(s, key, C.UpdatedTable(s, op)) <==> key in s.table && Decimal(rv) == Decimal(s.table[key].rv)
  {
    UpdateStores(s, op);
    assert current.key == H.KeyFor(tenant, Versioned(r, Decimal(rv))) == H.KeyFor(tenant, r);
  }
}
