/** The status a Workflow should have, computed from its spec, its prior status and the clock. */
module Status {
  import opened Bytes
  import opened Api

  /** The clock as read for the two conditions of one status. */
  datatype Readings = Readings(validated: Time, ready: Time)

  datatype Verdict = Verdict(ok: bool, reason: string, message: string)

  function ValidateSpec(spec: Option<WorkflowSpec>): Verdict {
    if spec.None? then Verdict(false, "MissingSpec", "Workflow has no spec.")
    else if spec.value.goal == "" then Verdict(false, "MissingGoal", "spec.goal is required.")
    else if spec.value.pipeline == [] then
      Verdict(false, "EmptyPipeline", "spec.pipeline must declare at least one phase.")
    else if exists phase :: phase in spec.value.pipeline && phase.name == "" then
      Verdict(false, "UnnamedPhase", "every pipeline phase requires a name.")
    else Verdict(true, "SpecValid", "Workflow spec validated.")
  }

  /** The first condition of a type; foreign and repeated conditions may be around it. */
  function FindCondition(conditions: seq<Condition>, conditionType: string): Option<Condition> {
    if conditions == [] then None
    else if conditions[0].conditionType == conditionType then Some(conditions[0])
    else FindCondition(conditions[1..], conditionType)
  }

  function ConditionsOf(status: Option<WorkflowStatus>): seq<Condition> {
    if status.Some? then status.value.conditions else []
  }

  function BoolText(b: bool): string {
    if b then "True" else "False"
  }

  /** The prior transition time is kept while the boolean state stays the same. */
  function MakeCondition(
      prev: Option<WorkflowStatus>, conditionType: string, ok: bool, reason: string, message: string,
      generation: int, now: Time): Condition
  {
    var prior := FindCondition(ConditionsOf(prev), conditionType);
    var transition :=
      if prior.Some? && prior.value.status == BoolText(ok) then prior.value.lastTransitionTime else Some(now);
    Condition(conditionType, BoolText(ok), reason, message, transition, generation)
  }

  function ComputeStatus(
      spec: Option<WorkflowSpec>, prev: Option<WorkflowStatus>, generation: int, now: Readings): WorkflowStatus
  {
    var v := ValidateSpec(spec);
    var validated := MakeCondition(prev, "Validated", v.ok, v.reason, v.message, generation, now.validated);
    var ready :=
      if v.ok then
        MakeCondition(
          prev, "Ready", true, "WorkflowReady", "Workflow is valid and ready to run.", generation, now.ready)
      else
        MakeCondition(prev, "Ready", false, "ValidationFailed", v.message, generation, now.ready);
    WorkflowStatus(
      [validated, ready], generation,
      if prev.Some? then prev.value.activeRunCount else 0,
      if prev.Some? then prev.value.lastRunRef else "")
  }

  predicate IsConverged(spec: Option<WorkflowSpec>, status: Option<WorkflowStatus>, generation: int, now: Readings) {
    status == Some(ComputeStatus(spec, status, generation, now))
  }

  // ----- what a computed status says -----

  /** The boolean state of a condition, as text; empty when there is no such condition. */
  function StateOf(status: WorkflowStatus, conditionType: string): string {
    var c := FindCondition(status.conditions, conditionType);
    if c.Some? then c.value.status else ""
  }

  /** The runnability of a spec: a goal, and at least one phase, every one of them named. */
  predicate Runnable(spec: Option<WorkflowSpec>) {
    && spec.Some?
    && spec.value.goal != ""
    && |spec.value.pipeline| > 0
    && forall i :: 0 <= i < |spec.value.pipeline| ==> spec.value.pipeline[i].name != ""
  }

  /** Both conditions of a status say whether this spec is runnable, and for which generation. */
  predicate Reports(status: WorkflowStatus, spec: Option<WorkflowSpec>, generation: int) {
    && status.observedGeneration == generation
    && StateOf(status, "Validated") == BoolText(Runnable(spec))
    && StateOf(status, "Ready") == BoolText(Runnable(spec))
    && forall c :: c in status.conditions ==> c.observedGeneration == generation
  }

  lemma ComputedConditions(spec: Option<WorkflowSpec>, prev: Option<WorkflowStatus>, generation: int, now: Readings)
    ensures var s := ComputeStatus(spec, prev, generation, now);
            && FindCondition(s.conditions, "Validated") == Some(s.conditions[0])
            && FindCondition(s.conditions, "Ready") == Some(s.conditions[1])
  {
  }

  /** Whatever the prior status and the clock, the computed status reports on the spec it was given. */
  lemma ComputedReports(spec: Option<WorkflowSpec>, prev: Option<WorkflowStatus>, generation: int, now: Readings)
    ensures Reports(ComputeStatus(spec, prev, generation, now), spec, generation)
  {
    ComputedConditions(spec, prev, generation, now);
    if spec.Some? && (exists phase :: phase in spec.value.pipeline && phase.name == "") {
      var phase :| phase in spec.value.pipeline && phase.name == "";
      var i :| 0 <= i < |spec.value.pipeline| && spec.value.pipeline[i] == phase;
    }
  }

  /** The prior condition is the first one of its type. */
  lemma {:induction false} FindsFirst(conditions: seq<Condition>, conditionType: string, i: int)
    requires 0 <= i < |conditions| && conditions[i].conditionType == conditionType
    requires forall j :: 0 <= j < i ==> conditions[j].conditionType != conditionType
    ensures FindCondition(conditions, conditionType) == Some(conditions[i])
    decreases |conditions|
  {
    if i > 0 {
      FindsFirst(conditions[1..], conditionType, i - 1);
    }
  }

  lemma {:induction false} FindsNone(conditions: seq<Condition>, conditionType: string)
    requires forall c :: c in conditions ==> c.conditionType != conditionType
    ensures FindCondition(conditions, conditionType) == None
  {
    if conditions != [] {
      FindsNone(conditions[1..], conditionType);
    }
  }

  /** The run counters are carried over; a first status starts them at zero. */
  lemma ComputedCounters(spec: Option<WorkflowSpec>, prev: Option<WorkflowStatus>, generation: int, now: Readings)
    ensures var s := ComputeStatus(spec, prev, generation, now);
            && (prev.None? ==> s.activeRunCount == 0 && s.lastRunRef == "")
            && (prev.Some? ==> s.activeRunCount == prev.value.activeRunCount && s.lastRunRef == prev.value.lastRunRef)
  {
  }

  predicate HasUnnamedPhase(spec: WorkflowSpec) {
    exists i :: 0 <= i < |spec.pipeline| && spec.pipeline[i].name == ""
  }

  /** The condition gives this reason and this message. */
  predicate Explains(c: Condition, reason: string, message: string) {
    c.reason == reason && c.message == message
  }

  /** A status has the two conditions and no other, in this order, and they explain what they say: what is
      missing first of a spec, a goal, a phase, and names for all phases. */
  lemma ComputedReasons(spec: Option<WorkflowSpec>, prev: Option<WorkflowStatus>, generation: int, now: Readings)
    ensures var cs := ComputeStatus(spec, prev, generation, now).conditions;
            && |cs| == 2 && cs[0].conditionType == "Validated" && cs[1].conditionType == "Ready"
            && (spec.None? ==> Explains(cs[0], "MissingSpec", "Workflow has no spec."))
            && (spec.Some? && spec.value.goal == "" ==> Explains(cs[0], "MissingGoal", "spec.goal is required."))
            && (spec.Some? && spec.value.goal != "" && spec.value.pipeline == [] ==>
                  Explains(cs[0], "EmptyPipeline", "spec.pipeline must declare at least one phase."))
            && (spec.Some? && spec.value.goal != "" && HasUnnamedPhase(spec.value) ==>
                  Explains(cs[0], "UnnamedPhase", "every pipeline phase requires a name."))
            && (Runnable(spec) ==>
                  && Explains(cs[0], "SpecValid", "Workflow spec validated.")
                  && Explains(cs[1], "WorkflowReady", "Workflow is valid and ready to run."))
            && (!Runnable(spec) ==> Explains(cs[1], "ValidationFailed", cs[0].message))
  {
    if spec.Some? {
      if phase :| phase in spec.value.pipeline && phase.name == "" {
        var i :| 0 <= i < |spec.value.pipeline| && spec.value.pipeline[i] == phase;
      }
    }
  }

  // ----- the clock-independent fixed point -----

  /** Computing a status from a computed status changes nothing, whatever the clock reads then. */
  lemma ComputeIsFixedPoint(
      spec: Option<WorkflowSpec>, prev: Option<WorkflowStatus>, generation: int, first: Readings, second: Readings)
    ensures var s := ComputeStatus(spec, prev, generation, first);
            ComputeStatus(spec, Some(s), generation, second) == s
  {
    ComputedConditions(spec, prev, generation, first);
  }

  /** Whether a status is converged does not depend on the clock. */
  lemma ConvergedIgnoresClock(
      spec: Option<WorkflowSpec>, status: Option<WorkflowStatus>, generation: int, first: Readings, second: Readings)
    ensures IsConverged(spec, status, generation, first) <==> IsConverged(spec, status, generation, second)
  {
    ComputeIsFixedPoint(spec, status, generation, first, second);
    ComputeIsFixedPoint(spec, status, generation, second, first);
  }

  // ----- transition times over a history of reconciles -----

  /** One visit of the reconciler: the spec and generation it saw and what the clock read. */
  datatype Visit = Visit(spec: Option<WorkflowSpec>, generation: int, now: Readings)

  /** The status after a sequence of reconciles of a Workflow that had some status or none before: the
      spec may change in between, the status is never dropped. */
  function StatusAfter(prior: Option<WorkflowStatus>, history: seq<Visit>): Option<WorkflowStatus> {
    if history == [] then prior
    else
      var r := history[|history| - 1];
      Some(ComputeStatus(r.spec, StatusAfter(prior, history[..|history| - 1]), r.generation, r.now))
  }

  lemma {:induction false} StatusAfterMore(prior: Option<WorkflowStatus>, before: seq<Visit>, after: seq<Visit>)
    ensures StatusAfter(prior, before + after) == StatusAfter(StatusAfter(prior, before), after)
    decreases |after|
  {
    if after == [] {
      assert before + after == before;
    } else {
      var n := |after| - 1;
      assert (before + after)[..|before + after| - 1] == before + after[..n];
      StatusAfterMore(prior, before, after[..n]);
    }
  }

  /** Reconcile i began the run of equal verdicts that the history ends in. */
  ghost predicate BeganLastRun(history: seq<Visit>, i: int) {
    && 0 <= i < |history|
    && (forall j :: i <= j < |history| ==> Runnable(history[j].spec) == Runnable(history[i].spec))
    && (i > 0 ==> Runnable(history[i - 1].spec) != Runnable(history[i].spec))
  }

  /** The reconcile that began the current run: every non-empty history has one. */
  function LastRunStart(history: seq<Visit>): (i: int)
    requires history != []
    ensures BeganLastRun(history, i)
  {
    var n := |history| - 1;
    if n == 0 || Runnable(history[n - 1].spec) != Runnable(history[n].spec) then n
    else
      assert history[..n][n - 1] == history[n - 1];
      LastRunStart(history[..n])
  }

  /** Which of the two readings goes into the condition of a type. */
  function ReadingFor(now: Readings, conditionType: string): Time {
    if conditionType == "Validated" then now.validated else now.ready
  }

  predicate IsComputedType(conditionType: string) {
    conditionType == "Validated" || conditionType == "Ready"
  }

  /** The last transition time of a condition that the run of equal values starting at reconcile i should
      show.  If the run reaches back to the prior status, whose condition already had this value, it is
      the time recorded there, set or not. */
  function TimeOfRun(prior: Option<WorkflowStatus>, history: seq<Visit>, i: int, conditionType: string): Option<Time>
    requires 0 <= i < |history|
  {
    var before := FindCondition(ConditionsOf(prior), conditionType);
    if i == 0 && before.Some? && before.value.status == BoolText(Runnable(history[0].spec))
    then before.value.lastTransitionTime
    else Some(ReadingFor(history[i].now, conditionType))
  }

  /** The last transition time of a condition is what the clock read at the reconcile that began its
      current unbroken run of equal values, or what the prior status said if the run is older, whatever
      other conditions the prior status had. */
  lemma TransitionTimeIsStartOfRun(prior: Option<WorkflowStatus>, history: seq<Visit>, conditionType: string)
    requires history != [] && IsComputedType(conditionType)
    ensures StatusAfter(prior, history).Some?
    ensures var c := FindCondition(StatusAfter(prior, history).value.conditions, conditionType);
            && c.Some?
            && c.value.status == BoolText(Runnable(history[|history| - 1].spec))
            && c.value.lastTransitionTime == TimeOfRun(prior, history, LastRunStart(history), conditionType)
  {
    TransitionTimeSince(prior, history, LastRunStart(history), conditionType);
  }

  /** One reconcile keeps the transition time of a condition that keeps its value. */
  lemma ComputedTime(
      spec: Option<WorkflowSpec>, prev: Option<WorkflowStatus>, generation: int, now: Readings, conditionType: string)
    requires IsComputedType(conditionType)
    ensures var before := FindCondition(ConditionsOf(prev), conditionType);
            var c := FindCondition(ComputeStatus(spec, prev, generation, now).conditions, conditionType);
            && c.Some?
            && c.value.status == BoolText(Runnable(spec))
            && c.value.lastTransitionTime ==
                 if before.Some? && before.value.status == BoolText(Runnable(spec)) then before.value.lastTransitionTime
                 else Some(ReadingFor(now, conditionType))
  {
    ComputedConditions(spec, prev, generation, now);
    ComputedReports(spec, prev, generation, now);
  }

  function ConditionAfter(
      prior: Option<WorkflowStatus>, history: seq<Visit>, conditionType: string): Option<Condition>
  {
    FindCondition(ConditionsOf(StatusAfter(prior, history)), conditionType)
  }

  lemma LastVisit(prior: Option<WorkflowStatus>, history: seq<Visit>, conditionType: string)
    requires history != [] && IsComputedType(conditionType)
    ensures var r := history[|history| - 1];
            var before := ConditionAfter(prior, history[..|history| - 1], conditionType);
            var c := ConditionAfter(prior, history, conditionType);
            && c.Some?
            && c.value.status == BoolText(Runnable(r.spec))
            && c.value.lastTransitionTime ==
                 if before.Some? && before.value.status == BoolText(Runnable(r.spec))
                 then before.value.lastTransitionTime
                 else Some(ReadingFor(r.now, conditionType))
  {
    var n := |history| - 1;
    var r := history[n];
    ComputedTime(r.spec, StatusAfter(prior, history[..n]), r.generation, r.now, conditionType);
  }

  /** The condition has the value of the last verdict, and dates from the start of the run. */
  ghost predicate DatesFrom(prior: Option<WorkflowStatus>, history: seq<Visit>, i: int, conditionType: string)
    requires 0 <= i < |history|
  {
    var c := ConditionAfter(prior, history, conditionType);
    && c.Some?
    && c.value.status == BoolText(Runnable(history[|history| - 1].spec))
    && c.value.lastTransitionTime == TimeOfRun(prior, history, i, conditionType)
  }

  lemma RunContinues(prior: Option<WorkflowStatus>, history: seq<Visit>, i: int, conditionType: string)
    requires IsComputedType(conditionType) && 0 <= i < |history| - 1
    requires DatesFrom(prior, history[..|history| - 1], i, conditionType)
    requires Runnable(history[|history| - 2].spec) == Runnable(history[|history| - 1].spec)
    ensures DatesFrom(prior, history, i, conditionType)
  {
    LastVisit(prior, history, conditionType);
  }

  lemma RunBegins(prior: Option<WorkflowStatus>, history: seq<Visit>, conditionType: string)
    requires IsComputedType(conditionType) && |history| > 1
    requires Runnable(history[|history| - 2].spec) != Runnable(history[|history| - 1].spec)
    ensures DatesFrom(prior, history, |history| - 1, conditionType)
  {
    LastVisit(prior, history, conditionType);
    LastVisit(prior, history[..|history| - 1], conditionType);
    assert BoolText(true)[0] != BoolText(false)[0];
  }

  lemma {:induction false} TransitionTimeSince(
      prior: Option<WorkflowStatus>, history: seq<Visit>, i: int, conditionType: string)
    requires BeganLastRun(history, i) && IsComputedType(conditionType)
    ensures DatesFrom(prior, history, i, conditionType)
  {
    var n := |history| - 1;
    if i < n {
      TransitionTimeSince(prior, history[..n], i, conditionType);
      RunContinues(prior, history, i, conditionType);
    } else if n > 0 {
      RunBegins(prior, history, conditionType);
    } else {
      LastVisit(prior, history, conditionType);
    }
  }
}
