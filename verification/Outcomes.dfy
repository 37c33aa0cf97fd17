/** What each call answers, when, and what it keeps of what it was sent. */
module Outcomes {
  import opened Bytes
  import opened Api
  import opened Table
  import H = Handlers

  /** A request that is refused before anything is read: without metadata or a name, or, of a Workflow,
      without a project. */
  predicate Nameless(req: Resource) {
    || req.metadata.None?
    || req.metadata.value.name == []
    || (req.Workflow? && req.metadata.value.project == [])
  }

  /** The key of what a request names: a Project has no project of its own. */
  function KeyNamed(tenant: Str, req: Resource): Key
    requires req.metadata.Some?
  {
    if req.Project? then Key(tenant, "Project", [], req.metadata.value.name)
    else Key(tenant, "Workflow", req.metadata.value.project, req.metadata.value.name)
  }

  lemma KeyIsNamed(tenant: Str, req: Resource)
    requires req.metadata.Some?
    ensures H.KeyFor(tenant, req) == KeyNamed(tenant, req)
  {
  }

  // ----- create -----

  predicate UidTaken(t: Rows, uid: string) {
    exists k :: k in t && t[k].uid == uid
  }

  /** The Project that a Workflow is created in is there. */
  predicate HasProject(t: Rows, tenant: Str, req: Resource)
    requires req.metadata.Some?
  {
    req.Workflow? ==> Key(tenant, "Project", [], req.metadata.value.project) in t
  }

  /** A create is refused for a name that is missing, a Project that is not there or a key that is taken,
      in this order; it fails for a tenant that is not known or a uid that is in use, and otherwise
      succeeds. */
  lemma CreateAnswers(t: Rows, tenants: set<Str>, tenant: Str, req: Resource, uid: string, now: Time)
    ensures var answer := H.Create(t, tenants, tenant, req, uid, now).1;
            && (answer == Err(InvalidArgument) <==> Nameless(req))
            && (!Nameless(req) ==>
                  && (answer == Err(FailedPrecondition) <==> !HasProject(t, tenant, req))
                  && (answer == Err(AlreadyExists) <==>
                        HasProject(t, tenant, req) && KeyNamed(tenant, req) in t)
                  && (answer == Err(Internal) <==>
                        HasProject(t, tenant, req) && KeyNamed(tenant, req) !in t
                          && (tenant !in tenants || UidTaken(t, uid)))
                  && (answer.Ok? <==>
                        HasProject(t, tenant, req) && KeyNamed(tenant, req) !in t
                          && tenant in tenants && !UidTaken(t, uid)))
  {
    KindsDiffer();
  }

  /** A create that fails changes nothing; one that succeeds adds one row, the first version of its key. */
  lemma CreateChanges(t: Rows, tenants: set<Str>, tenant: Str, req: Resource, uid: string, now: Time)
    ensures var (t', answer) := H.Create(t, tenants, tenant, req, uid, now);
            && (answer.Err? ==> t' == t)
            && (answer.Ok? ==>
                  && req.metadata.Some?
                  && var key := KeyNamed(tenant, req);
                     && key !in t && key in t' && t' == t[key := t'[key]]
                     && t'[key] == Row(key, uid, 1, 1, req.metadata.value.labels, now, t'[key].data))
  {
  }

  /** What a create answers, field by field: name, labels, annotations, finalizers and deletion time as
      requested, the spec as requested, no status, and the rest as the server assigned it. */
  lemma CreateKeeps(t: Rows, tenants: set<Str>, tenant: Str, req: Resource, uid: string, now: Time)
    requires H.Create(t, tenants, tenant, req, uid, now).1.Ok?
    ensures req.metadata.Some?
    ensures var answer := H.Create(t, tenants, tenant, req, uid, now).1.value;
            var sent := req.metadata.value;
            && answer.metadata ==
                 Some(ObjectMeta(sent.name, tenant, if req.Project? then [] else sent.project, uid, "1", 1, Some(now),
                                 sent.deletionTimestamp, sent.labels, sent.annotations, sent.finalizers))
            && (req.Project? <==> answer.Project?)
            && (req.Project? ==> answer.projectSpec == req.projectSpec && answer.projectStatus.None?)
            && (req.Workflow? ==> answer.workflowSpec == req.workflowSpec && answer.workflowStatus.None?)
  {
  }

  // ----- update -----

  /** A row that does not hold a body of its own kind, which no handler stores. */
  predicate WrongKind(t: Rows, key: Key) {
    key in t && KindOf(t[key].data) != key.kind
  }

  /** An update is refused for a name or a version that is missing, and for a row that is not there; it is
      aborted for a version that is not the stored one, and otherwise succeeds. */
  lemma UpdateAnswers(t: Rows, tenant: Str, req: Resource)
    ensures var answer := H.Update(t, tenant, req).1;
            && (answer == Err(InvalidArgument) <==> Nameless(req) || req.metadata.value.resourceVersion == "")
            && (!Nameless(req) && req.metadata.value.resourceVersion != "" ==>
                  var key, version := KeyNamed(tenant, req), req.metadata.value.resourceVersion;
                  && (answer == Err(NotFound) <==> key !in t)
                  && (answer == Err(Internal) <==> WrongKind(t, key))
                  && (answer == Err(Aborted) <==>
                        key in t && !WrongKind(t, key) && version != Decimal(t[key].rv))
                  && (answer.Ok? <==> key in t && !WrongKind(t, key) && version == Decimal(t[key].rv)))
  {
    KindsDiffer();
    if !Nameless(req) && req.metadata.value.resourceVersion != "" && KeyNamed(tenant, req) in t {
      KeyIsNamed(tenant, req);
      assert H.RecordForUpdate(tenant, req, ToRecord(t[KeyNamed(tenant, req)])).key == KeyNamed(tenant, req);
    }
  }

  /** The request has the spec of the row. */
  predicate SpecUnchanged(row: Row, req: Resource) {
    || (row.data.Project? && req.Project? && row.data.projectSpec == req.projectSpec)
    || (row.data.Workflow? && req.Workflow? && row.data.workflowSpec == req.workflowSpec)
  }

  /** An update that fails changes nothing; one that succeeds replaces the row by its next version. */
  lemma UpdateChanges(t: Rows, tenant: Str, req: Resource)
    ensures var (t', answer) := H.Update(t, tenant, req);
            && (answer.Err? ==> t' == t)
            && (answer.Ok? ==>
                  && req.metadata.Some?
                  && var key := KeyNamed(tenant, req);
                     && key in t && key in t' && t' == t[key := t'[key]]
                     && t'[key] == t[key].(rv := t[key].rv + 1, labels := req.metadata.value.labels,
                                           generation := t'[key].generation, data := t'[key].data)
                     && t'[key].generation == t[key].generation + if SpecUnchanged(t[key], req) then 0 else 1)
  {
  }

  /** What an update answers, field by field: the spec and the status as requested, name, labels,
      annotations, finalizers and deletion time too, and the rest as it is stored. */
  lemma UpdateKeeps(t: Rows, tenant: Str, req: Resource)
    requires H.WellKeyed(t) && H.Update(t, tenant, req).1.Ok?
    ensures req.metadata.Some? && KeyNamed(tenant, req) in t
    ensures var answer, row := H.Update(t, tenant, req).1.value, t[KeyNamed(tenant, req)];
            var sent := req.metadata.value;
            && answer.metadata ==
                 Some(ObjectMeta(sent.name, tenant, if req.Project? then [] else sent.project, row.uid,
                                 Decimal(row.rv + 1), row.generation + if SpecUnchanged(row, req) then 0 else 1,
                                 Some(row.createdAt), sent.deletionTimestamp, sent.labels, sent.annotations,
                                 sent.finalizers))
            && answer == H.WithMeta(req, answer.metadata.value)
            && (req.Project? ==>
                  answer.Project? && answer.projectSpec == req.projectSpec && answer.projectStatus == req.projectStatus)
            && (req.Workflow? ==>
                  answer.Workflow? && answer.workflowSpec == req.workflowSpec
                    && answer.workflowStatus == req.workflowStatus)
  {
    KeyIsNamed(tenant, req);
    assert H.RecordForUpdate(tenant, req, ToRecord(t[KeyNamed(tenant, req)])).key == KeyNamed(tenant, req);
  }

  // ----- get and delete -----

  predicate IncompleteTarget(target: H.Target) {
    target.name == [] || (target.kind == "Workflow" && target.project == [])
  }

  function KeyTargeted(tenant: Str, target: H.Target): Key {
    Key(tenant, target.kind, if target.kind == "Project" then [] else target.project, target.name)
  }

  /** A get is refused for a name or a project that is missing and for a row that is not there, and
      otherwise succeeds. */
  lemma GetAnswers(t: Rows, tenant: Str, target: H.Target)
    ensures var answer, key := H.Get(t, tenant, target), KeyTargeted(tenant, target);
            && (answer == Err(InvalidArgument) <==> IncompleteTarget(target))
            && (!IncompleteTarget(target) ==>
                  && (answer == Err(NotFound) <==> key !in t)
                  && (answer == Err(Internal) <==> WrongKind(t, key))
                  && (answer.Ok? <==> key in t && !WrongKind(t, key)))
  {
    KindsDiffer();
  }

  /** What a get answers: the body of the row, with key, uid, version, generation and creation time as the
      columns have them. */
  lemma GetShows(t: Rows, tenant: Str, target: H.Target)
    requires H.WellKeyed(t) && H.Get(t, tenant, target).Ok?
    ensures KeyTargeted(tenant, target) in t
    ensures IsShown(t[KeyTargeted(tenant, target)], H.Get(t, tenant, target).value)
  {
  }

  /** The object is this row as a client sees it. */
  predicate IsShown(row: Row, shown: Resource) {
    && KindOf(shown) == KindOf(row.data)
    && (shown.Project? ==>
          shown.projectSpec == row.data.projectSpec && shown.projectStatus == row.data.projectStatus)
    && (shown.Workflow? ==>
          shown.workflowSpec == row.data.workflowSpec && shown.workflowStatus == row.data.workflowStatus)
    && shown.metadata.Some?
    && var meta, body := shown.metadata.value, H.MetaOf(row.data);
       && meta.tenantId == row.key.tenant && meta.project == row.key.project && meta.name == row.key.name
       && meta.uid == row.uid && meta.resourceVersion == Decimal(row.rv) && meta.generation == row.generation
       && meta.creationTimestamp == Some(row.createdAt)
       && meta.deletionTimestamp == body.deletionTimestamp && meta.labels == body.labels
       && meta.annotations == body.annotations && meta.finalizers == body.finalizers
  }

  /** Decoding shows the row. */
  lemma DecodeShows(kind: Str, row: Row)
    ensures H.Decode(kind, ToRecord(row)).Ok? <==> KindOf(row.data) == kind
    ensures H.Decode(kind, ToRecord(row)).Err? ==> H.Decode(kind, ToRecord(row)) == Err(Internal)
    ensures H.Decode(kind, ToRecord(row)).Ok? ==> IsShown(row, H.Decode(kind, ToRecord(row)).value)
  {
    KindsDiffer();
  }

  /** A delete answers what a get would have, and takes away that row and no other; one that is refused
      takes away nothing. */
  lemma DeleteAnswers(t: Rows, tenant: Str, target: H.Target)
    ensures var (t', answer) := H.Delete(t, tenant, target);
            && answer == H.Get(t, tenant, target)
            && t' == (if IncompleteTarget(target) then t else t - {KeyTargeted(tenant, target)})
            && (answer.Ok? ==> KeyTargeted(tenant, target) in t && H.Get(t', tenant, target) == Err(NotFound))
  {
  }
}
