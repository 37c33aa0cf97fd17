/** The messages of the v1alpha1 API and the results of its calls, as plain values.

    A message field that may be unset is an `Option`; `proto.Equal` is structural equality, under
    which an unset message differs from an empty one. */
module Api {
  import opened Bytes

  datatype Option<+T> = None | Some(value: T)

  datatype Result<+T, +E> = Ok(value: T) | Err(error: E)

  /** Nanoseconds since some epoch. */
  type Time = int

  type Labels = map<Str, Str>

  datatype ObjectMeta = ObjectMeta(
    name: Str,
    tenantId: Str,
    project: Str,
    uid: string,
    resourceVersion: string,
    generation: int,
    creationTimestamp: Option<Time>,
    deletionTimestamp: Option<Time>,
    labels: Labels,
    annotations: map<Str, Str>,
    finalizers: seq<string>)

  const EMPTY_META := ObjectMeta([], [], [], "", "", 0, None, None, map[], map[], [])

  datatype Budget = Budget(usdCap: string, window: string)

  datatype ProjectSpec = ProjectSpec(
    displayName: string,
    description: string,
    defaultModelProvider: string,
    budget: Option<Budget>,
    secretRefs: seq<string>)

  datatype ProjectStatus = ProjectStatus(conditions: seq<Condition>, observedGeneration: int, spendUsd: string)

  datatype Constraints = Constraints(stack: seq<string>, deadline: Option<Time>, budget: Option<Budget>)

  datatype Phase = Phase(name: string, agents: seq<string>, approval: int, parallelism: int, gating: bool)

  datatype WorkflowSpec = WorkflowSpec(goal: string, constraints: Option<Constraints>, pipeline: seq<Phase>)

  datatype Condition = Condition(
    conditionType: string,
    status: string,
    reason: string,
    message: string,
    lastTransitionTime: Option<Time>,
    observedGeneration: int)

  datatype WorkflowStatus = WorkflowStatus(
    conditions: seq<Condition>,
    observedGeneration: int,
    activeRunCount: int,
    lastRunRef: string)

  /** A resource message.  An absent request message is a message without metadata: the handlers
      reject both in the same way. */
  datatype Resource =
    | Project(metadata: Option<ObjectMeta>, projectSpec: Option<ProjectSpec>, projectStatus: Option<ProjectStatus>)
    | Workflow(metadata: Option<ObjectMeta>, workflowSpec: Option<WorkflowSpec>, workflowStatus: Option<WorkflowStatus>)

  const KIND_PROJECT: Str := "Project"
  const KIND_WORKFLOW: Str := "Workflow"
  const DEFAULT_TENANT: Str := "default"

  function KindOf(r: Resource): Str {
    if r.Project? then KIND_PROJECT else KIND_WORKFLOW
  }

  lemma KindsDiffer()
    ensures KIND_PROJECT != KIND_WORKFLOW
  {
  }

  /** `proto.Equal` on the specs of two messages of the same kind. */
  predicate SameSpec(a: Resource, b: Resource) {
    match (a, b)
    case (Project(_, s, _), Project(_, t, _)) => s == t
    case (Workflow(_, s, _), Workflow(_, t, _)) => s == t
    case _ => false
  }

  /** The gRPC codes the handlers return. */
  datatype Code = InvalidArgument | NotFound | AlreadyExists | Aborted | FailedPrecondition | Internal
}
