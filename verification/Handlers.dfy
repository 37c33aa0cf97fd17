/** The create, get, update and delete handlers of Projects and Workflows, cut at their store calls.

    A handler that reads and then writes is two functions here: one up to and including its read,
    and one from the value it read to the end of its write.  Run back to back they are the handler;
    the control plane runs other steps in between. */
module Handlers {
  import opened Bytes
  import opened Api
  import opened Table

  function StatusCode(e: StoreError): Code {
    match e
    case ErrNotFound => NotFound
    case ErrAlreadyExists => AlreadyExists
    case ErrConflict => Aborted
    case ErrInsert => Internal
    case ErrToken => Internal
  }

  // ----- metadata -----

  function MetaOf(r: Resource): ObjectMeta {
    if r.metadata.Some? then r.metadata.value else EMPTY_META
  }

  function WithMeta(r: Resource, meta: ObjectMeta): Resource {
    r.(metadata := Some(meta))
  }

  /** The store-authoritative fields, stamped over whatever the body or the client holds. */
  function OverlayStoredMeta(meta: ObjectMeta, rec: Record): ObjectMeta {
    meta.(tenantId := rec.key.tenant, project := rec.key.project, name := rec.key.name, uid := rec.uid,
          resourceVersion := rec.resourceVersion, generation := rec.generation,
          creationTimestamp := if rec.createdAt.Some? then rec.createdAt else meta.creationTimestamp)
  }

  /** A Project is tenant-global: its key has no project segment. */
  function KeyFor(tenant: Str, r: Resource): Key {
    Key(tenant, KindOf(r), if r.Project? then [] else MetaOf(r).project, MetaOf(r).name)
  }

  function MarshalForStore(tenant: Str, r: Resource): Record {
    var meta := MetaOf(r);
    Record(Key(tenant, KindOf(r), meta.project, meta.name), "", "", meta.generation, meta.labels, None, r)
  }

  /** Unmarshalling a body as another kind fails; that no row of a kind holds such a body is an
      invariant of the control plane. */
  function Decode(kind: Str, rec: Record): Result<Resource, Code> {
    if KindOf(rec.data) != kind then Err(Internal)
    else Ok(WithMeta(rec.data, OverlayStoredMeta(MetaOf(rec.data), rec)))
  }

  predicate Named(r: Resource) {
    && r.metadata.Some?
    && r.metadata.value.name != []
    && (r.Workflow? ==> r.metadata.value.project != [])
  }

  // ----- create -----

  function ProjectKey(tenant: Str, name: Str): Key {
    Key(tenant, KIND_PROJECT, [], name)
  }

  /** The first half of a create: the request is checked and, for a Workflow, its Project read. */
  function BeginCreate(t: Rows, tenant: Str, req: Resource): Result<(), Code> {
    if !Named(req) then Err(InvalidArgument)
    else if req.Workflow? && Fetch(t, ProjectKey(tenant, MetaOf(req).project)).Err? then Err(FailedPrecondition)
    else Ok(())
  }

  /** The server owns tenant and generation and drops any status the client sent. */
  function StampedForCreate(tenant: Str, req: Resource): Resource {
    match req
    case Project(_, spec, _) =>
      Project(Some(MetaOf(req).(tenantId := tenant, project := [], generation := 1)), spec, None)
    case Workflow(_, spec, _) =>
      Workflow(Some(MetaOf(req).(tenantId := tenant, generation := 1)), spec, None)
  }

  function FinishCreate(t: Rows, tenants: set<Str>, tenant: Str, req: Resource, uid: string, now: Time):
      (Rows, Result<Resource, Code>)
  {
    var w := StampedForCreate(tenant, req);
    match Insert(t, tenants, MarshalForStore(tenant, w), uid, now)
    case (t', Err(e)) => (t', Err(StatusCode(e)))
    case (t', Ok(stored)) => (t', Ok(WithMeta(w, OverlayStoredMeta(MetaOf(w), stored))))
  }

  function Create(t: Rows, tenants: set<Str>, tenant: Str, req: Resource, uid: string, now: Time):
      (Rows, Result<Resource, Code>)
  {
    match BeginCreate(t, tenant, req)
    case Err(e) => (t, Err(e))
    case Ok(_) => FinishCreate(t, tenants, tenant, req, uid, now)
  }

  // ----- update -----

  /** The first half of an update: the request is checked and the current record read. */
  function BeginUpdate(t: Rows, tenant: Str, req: Resource): Result<Record, Code> {
    if !Named(req) || MetaOf(req).resourceVersion == "" then Err(InvalidArgument)
    else
      match Fetch(t, KeyFor(tenant, req))
      case Err(e) => Err(StatusCode(e))
      case Ok(current) =>
        match Decode(KindOf(req), current)
        case Err(e) => Err(e)
        case Ok(_) => Ok(current)
  }

  /** The generation moves only when the spec differs from the one that was read. */
  function NextGeneration(current: Record, req: Resource): int {
    if SameSpec(current.data, req) then current.generation else current.generation + 1
  }

  /** The status is stored as the client sent it, or dropped if it sent none. */
  function StampedForUpdate(tenant: Str, req: Resource, current: Record): Resource {
    var meta := MetaOf(req).(tenantId := tenant, generation := NextGeneration(current, req));
    WithMeta(req, if req.Project? then meta.(project := []) else meta)
  }

  function RecordForUpdate(tenant: Str, req: Resource, current: Record): Record {
    MarshalForStore(tenant, StampedForUpdate(tenant, req, current)).(resourceVersion := MetaOf(req).resourceVersion)
  }

  function FinishUpdate(t: Rows, tenant: Str, req: Resource, current: Record): (Rows, Result<Resource, Code>) {
    var w := StampedForUpdate(tenant, req, current);
    match Replace(t, RecordForUpdate(tenant, req, current))
    case (t', Err(e)) => (t', Err(StatusCode(e)))
    case (t', Ok(stored)) => (t', Ok(WithMeta(w, OverlayStoredMeta(MetaOf(w), stored))))
  }

  function Update(t: Rows, tenant: Str, req: Resource): (Rows, Result<Resource, Code>) {
    match BeginUpdate(t, tenant, req)
    case Err(e) => (t, Err(e))
    case Ok(current) => FinishUpdate(t, tenant, req, current)
  }

  // ----- get and delete -----

  /** What a get or delete names: a Project by name, a Workflow by project and name. */
  datatype Target = Target(kind: Str, project: Str, name: Str)

  predicate Complete(target: Target) {
    target.name != [] && (target.kind == KIND_WORKFLOW ==> target.project != [])
  }

  function TargetKey(tenant: Str, target: Target): Key {
    Key(tenant, target.kind, if target.kind == KIND_PROJECT then [] else target.project, target.name)
  }

  function Get(t: Rows, tenant: Str, target: Target): Result<Resource, Code> {
    if !Complete(target) then Err(InvalidArgument)
    else
      match Fetch(t, TargetKey(tenant, target))
      case Err(e) => Err(StatusCode(e))
      case Ok(rec) => Decode(target.kind, rec)
  }

  function Delete(t: Rows, tenant: Str, target: Target): (Rows, Result<Resource, Code>) {
    if !Complete(target) then (t, Err(InvalidArgument))
    else
      match Remove(t, TargetKey(tenant, target))
      case (t', Err(e)) => (t', Err(StatusCode(e)))
      case (t', Ok(rec)) => (t', Decode(target.kind, rec))
  }

  // ----- the lifted columns -----

  /** The indexed columns of a row say the same as its body. */
  predicate ColumnsAgree(row: Row) {
    && row.data.metadata.Some?
    && KindOf(row.data) == row.key.kind
    && var meta := row.data.metadata.value;
       && meta.tenantId == row.key.tenant
       && meta.project == row.key.project
       && meta.name == row.key.name
       && meta.generation == row.generation
       && meta.labels == row.labels
  }

  /** Every key leads to the row that carries it. */
  predicate WellKeyed(t: Rows) {
    forall k :: k in t ==> t[k].key == k
  }

  // ----- reading back what was written -----

  function TargetOf(r: Resource): Target {
    Target(KindOf(r), MetaOf(r).project, MetaOf(r).name)
  }

  /** What a successful create returns is what a get of it then decodes, whatever uid, version,
      generation, status or creation time the request carried. */
  lemma CreateReadsBack(t: Rows, tenants: set<Str>, tenant: Str, req: Resource, uid: string, now: Time)
    requires Create(t, tenants, tenant, req, uid, now).1.Ok?
    ensures var (t', answer) := Create(t, tenants, tenant, req, uid, now);
            && Get(t', tenant, TargetOf(req)) == answer
            && MetaOf(answer.value).uid == uid
            && MetaOf(answer.value).resourceVersion == "1"
            && MetaOf(answer.value).generation == 1
            && MetaOf(answer.value).creationTimestamp == Some(now)
            && SameSpec(answer.value, req)
  {
  }

  /** What a successful update returns is what a get of it then decodes; it carries the uid and
      creation time of the row it replaced and a version one higher. */
  lemma UpdateReadsBack(t: Rows, tenant: Str, req: Resource)
    requires WellKeyed(t)
    requires Update(t, tenant, req).1.Ok?
    ensures var (t', answer) := Update(t, tenant, req);
            var key := KeyFor(tenant, req);
            && Get(t', tenant, TargetOf(req)) == answer
            && key in t
            && MetaOf(answer.value).uid == t[key].uid
            && MetaOf(answer.value).creationTimestamp == Some(t[key].createdAt)
            && MetaOf(answer.value).resourceVersion == Decimal(t[key].rv + 1)
            && SameSpec(answer.value, req)
  {
  }
}
