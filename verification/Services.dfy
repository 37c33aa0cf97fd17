/** The two gRPC services over a store: every call is its handler of `Handlers`, run in one go. */
module Services {
  import opened Bytes
  import opened Api
  import opened Table
  import opened Paging
  import opened Store
  import opened Selector
  import H = Handlers

  // ----- the specification of a list call -----

  function DecodeAll(kind: Str, recs: seq<Record>): Result<seq<Resource>, Code> {
    if recs == [] then Ok([])
    else
      match DecodeAll(kind, recs[..|recs| - 1])
      case Err(e) => Err(e)
      case Ok(items) =>
        match H.Decode(kind, recs[|recs| - 1])
        case Err(e) => Err(e)
        case Ok(item) => Ok(items + [item])
  }

  function ListResources(
      rows: seq<Row>, tenant: Str, kind: Str, project: Str, selector: Str, pageSize: int, token: Str):
      Result<(seq<Resource>, Str), Code>
  {
    match Parse(selector)
    case None => Err(InvalidArgument)
    case Some(labels) =>
      match List(rows, ListOptions(Filter(tenant, kind, project, labels), pageSize, token))
      case Err(e) => Err(H.StatusCode(e))
      case Ok((recs, next)) =>
        match DecodeAll(kind, recs)
        case Err(e) => Err(e)
        case Ok(items) => Ok((items, next))
  }

  lemma {:induction false} FailedDecodeSticks(kind: Str, recs: seq<Record>, n: nat)
    requires n <= |recs| && DecodeAll(kind, recs[..n]).Err?
    ensures DecodeAll(kind, recs) == DecodeAll(kind, recs[..n])
    decreases |recs| - n
  {
    if n == |recs| {
      assert recs[..n] == recs;
    } else {
      assert recs[..n + 1][..n] == recs[..n];
      FailedDecodeSticks(kind, recs, n + 1);
    }
  }

  // ----- the services -----

  class WorkflowService {
    const store: SqliteStore

    constructor (store: SqliteStore)
      ensures this.store == store
    {
      this.store := store;
    }

    method CreateWorkflow(tenant: Str, request: Resource, uid: string, now: Time)
        returns (answer: Result<Resource, Code>)
      requires request.Workflow? && store.Valid()
      modifies store
      ensures store.Valid()
      ensures (store.Contents(), answer) == H.Create(old(store.Contents()), store.tenants, tenant, request, uid, now)
    {
      var w := request;
      if w.metadata.None? || w.metadata.value.name == [] {
        return Err(InvalidArgument);
      }
      if w.metadata.value.project == [] {
        return Err(InvalidArgument);
      }
      var project := store.Get(H.ProjectKey(tenant, w.metadata.value.project));
      if project.Err? {
        return Err(FailedPrecondition);
      }
      w := Workflow(Some(w.metadata.value.(tenantId := tenant, generation := 1)), w.workflowSpec, None);
      var stored := store.Create(H.MarshalForStore(tenant, w), uid, now);
      if stored.Err? {
        return Err(H.StatusCode(stored.error));
      }
      return Ok(H.WithMeta(w, H.OverlayStoredMeta(w.metadata.value, stored.value)));
    }

    method GetWorkflow(tenant: Str, project: Str, name: Str) returns (answer: Result<Resource, Code>)
      requires store.Valid()
      ensures answer == H.Get(store.Contents(), tenant, H.Target(KIND_WORKFLOW, project, name))
    {
      KindsDiffer();
      if project == [] || name == [] {
        return Err(InvalidArgument);
      }
      var rec := store.Get(Key(tenant, KIND_WORKFLOW, project, name));
      if rec.Err? {
        return Err(H.StatusCode(rec.error));
      }
      return H.Decode(KIND_WORKFLOW, rec.value);
    }

    method ListWorkflows(tenant: Str, project: Str, selector: Str, pageSize: int, token: Str)
        returns (answer: Result<(seq<Resource>, Str), Code>)
      requires store.Valid()
      ensures answer == ListResources(store.rows, tenant, KIND_WORKFLOW, project, selector, pageSize, token)
    {
      var labels := ParseLabelSelector(selector);
      if labels.Err? {
        return Err(labels.error);
      }
      var page := store.ListRecords(ListOptions(Filter(tenant, KIND_WORKFLOW, project, labels.value), pageSize, token));
      if page.Err? {
        return Err(H.StatusCode(page.error));
      }
      var (recs, next) := page.value;
      var items: seq<Resource> := [];
      for i := 0 to |recs|
        invariant DecodeAll(KIND_WORKFLOW, recs[..i]) == Ok(items)
      {
        assert recs[..i + 1][..i] == recs[..i];
        var w := H.Decode(KIND_WORKFLOW, recs[i]);
        if w.Err? {
          FailedDecodeSticks(KIND_WORKFLOW, recs, i + 1);
          return Err(w.error);
        }
        items := items + [w.value];
      }
      assert recs[..|recs|] == recs;
      return Ok((items, next));
    }

    method UpdateWorkflow(tenant: Str, request: Resource) returns (answer: Result<Resource, Code>)
      requires request.Workflow? && store.Valid()
      modifies store
      ensures store.Valid()
      ensures (store.Contents(), answer) == H.Update(old(store.Contents()), tenant, request)
    {
      var w := request;
      if w.metadata.None? || w.metadata.value.name == [] {
        return Err(InvalidArgument);
      }
      if w.metadata.value.project == [] {
        return Err(InvalidArgument);
      }
      if w.metadata.value.resourceVersion == "" {
        return Err(InvalidArgument);
      }
      var meta := w.metadata.value.(tenantId := tenant);
      var current := store.Get(Key(tenant, KIND_WORKFLOW, meta.project, meta.name));
      if current.Err? {
        return Err(H.StatusCode(current.error));
      }
      var cur := H.Decode(KIND_WORKFLOW, current.value);
      if cur.Err? {
        return Err(cur.error);
      }
      meta := meta.(generation := current.value.generation);
      if !SameSpec(cur.value, w) {
        meta := meta.(generation := current.value.generation + 1);
      }
      w := H.WithMeta(w, meta);
      var rec := H.MarshalForStore(tenant, w).(resourceVersion := meta.resourceVersion);
      var stored := store.Update(rec);
      if stored.Err? {
        return Err(H.StatusCode(stored.error));
      }
      return Ok(H.WithMeta(w, H.OverlayStoredMeta(meta, stored.value)));
    }

    method DeleteWorkflow(tenant: Str, project: Str, name: Str) returns (answer: Result<Resource, Code>)
      requires store.Valid()
      modifies store
      ensures store.Valid()
      ensures (store.Contents(), answer)
                == H.Delete(old(store.Contents()), tenant, H.Target(KIND_WORKFLOW, project, name))
    {
      KindsDiffer();
      if project == [] || name == [] {
        return Err(InvalidArgument);
      }
      var rec := store.Delete(Key(tenant, KIND_WORKFLOW, project, name));
      if rec.Err? {
        return Err(H.StatusCode(rec.error));
      }
      return H.Decode(KIND_WORKFLOW, rec.value);
    }
  }

  class ProjectService {
    const store: SqliteStore

    constructor (store: SqliteStore)
      ensures this.store == store
    {
      this.store := store;
    }

    method CreateProject(tenant: Str, request: Resource, uid: string, now: Time)
        returns (answer: Result<Resource, Code>)
      requires request.Project? && store.Valid()
      modifies store
      ensures store.Valid()
      ensures (store.Contents(), answer) == H.Create(old(store.Contents()), store.tenants, tenant, request, uid, now)
    {
      var p := request;
      if p.metadata.None? || p.metadata.value.name == [] {
        return Err(InvalidArgument);
      }
      p := Project(Some(p.metadata.value.(tenantId := tenant, project := [], generation := 1)), p.projectSpec, None);
      var stored := store.Create(H.MarshalForStore(tenant, p), uid, now);
      if stored.Err? {
        return Err(H.StatusCode(stored.error));
      }
      return Ok(H.WithMeta(p, H.OverlayStoredMeta(p.metadata.value, stored.value)));
    }

    method GetProject(tenant: Str, name: Str) returns (answer: Result<Resource, Code>)
      requires store.Valid()
      ensures answer == H.Get(store.Contents(), tenant, H.Target(KIND_PROJECT, [], name))
    {
      KindsDiffer();
      if name == [] {
        return Err(InvalidArgument);
      }
      var rec := store.Get(Key(tenant, KIND_PROJECT, [], name));
      if rec.Err? {
        return Err(H.StatusCode(rec.error));
      }
      return H.Decode(KIND_PROJECT, rec.value);
    }

    method ListProjects(tenant: Str, selector: Str, pageSize: int, token: Str)
        returns (answer: Result<(seq<Resource>, Str), Code>)
      requires store.Valid()
      ensures answer == ListResources(store.rows, tenant, KIND_PROJECT, [], selector, pageSize, token)
    {
      var labels := ParseLabelSelector(selector);
      if labels.Err? {
        return Err(labels.error);
      }
      var page := store.ListRecords(ListOptions(Filter(tenant, KIND_PROJECT, [], labels.value), pageSize, token));
      if page.Err? {
        return Err(H.StatusCode(page.error));
      }
      var (recs, next) := page.value;
      var items: seq<Resource> := [];
      for i := 0 to |recs|
        invariant DecodeAll(KIND_PROJECT, recs[..i]) == Ok(items)
      {
        assert recs[..i + 1][..i] == recs[..i];
        var p := H.Decode(KIND_PROJECT, recs[i]);
        if p.Err? {
          FailedDecodeSticks(KIND_PROJECT, recs, i + 1);
          return Err(p.error);
        }
        items := items + [p.value];
      }
      assert recs[..|recs|] == recs;
      return Ok((items, next));
    }

    method UpdateProject(tenant: Str, request: Resource) returns (answer: Result<Resource, Code>)
      requires request.Project? && store.Valid()
      modifies store
      ensures store.Valid()
      ensures (store.Contents(), answer) == H.Update(old(store.Contents()), tenant, request)
    {
      var p := request;
      if p.metadata.None? || p.metadata.value.name == [] {
        return Err(InvalidArgument);
      }
      if p.metadata.value.resourceVersion == "" {
        return Err(InvalidArgument);
      }
      var meta := p.metadata.value.(tenantId := tenant, project := []);
      var current := store.Get(Key(tenant, KIND_PROJECT, [], meta.name));
      if current.Err? {
        return Err(H.StatusCode(current.error));
      }
      var cur := H.Decode(KIND_PROJECT, current.value);
      if cur.Err? {
        return Err(cur.error);
      }
      meta := meta.(generation := current.value.generation);
      if !SameSpec(cur.value, p) {
        meta := meta.(generation := current.value.generation + 1);
      }
      p := H.WithMeta(p, meta);
      var rec := H.MarshalForStore(tenant, p).(resourceVersion := meta.resourceVersion);
      var stored := store.Update(rec);
      if stored.Err? {
        return Err(H.StatusCode(stored.error));
      }
      return Ok(H.WithMeta(p, H.OverlayStoredMeta(meta, stored.value)));
    }

    method DeleteProject(tenant: Str, name: Str) returns (answer: Result<Resource, Code>)
      requires store.Valid()
      modifies store
      ensures store.Valid()
      ensures (store.Contents(), answer) == H.Delete(old(store.Contents()), tenant, H.Target(KIND_PROJECT, [], name))
    {
      KindsDiffer();
      if name == [] {
        return Err(InvalidArgument);
      }
      var rec := store.Delete(Key(tenant, KIND_PROJECT, [], name));
      if rec.Err? {
        return Err(H.StatusCode(rec.error));
      }
      return H.Decode(KIND_PROJECT, rec.value);
    }
  }
}
