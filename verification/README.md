# Kestrai control plane: a model of its store, handlers and reconciler

Kestrai's Phase 0 control plane keeps Projects and Workflows in one versioned SQLite table. API
handlers read a row and write it back in a second, separate store call; a reconciler lists all
Workflows and then writes them back one by one. No lock spans any of these pairs. What keeps them
apart is the version token that every update must carry. This project models the table, the calls
and the reconciler as one state machine and states what holds in every interleaving, what holds
only of clients that use tokens as the API says, and what does not hold.

## Shape of the model

| file | what it holds |
|---|---|
| `Bytes.dfy`, `Base64.dfy`, `Api.dfy` | byte strings and their order, decimal text, base64url (RFC 4648, section 5, unpadded as in section 3.2), the API messages |
| `Table.dfy` | the table as a map from keys to rows, and the store operations on it as functions; `InsertContract`, `FetchContract`, `ReplaceContract` and `RemoveContract` are what `internal/store/store.go:92-111` says of them, and `RecordShowsRow` what callers see of a row |
| `Paging.dfy`, `Walks.dfy` | ordering, filters, continue tokens, and walks page by page over a changing table |
| `Store.dfy` | the store as a class over rows in primary-key order, refining `Table.dfy` |
| `Trimming.dfy`, `Selector.dfy` | trimming of Unicode white space; the label selector parser, and a printer it inverts |
| `Handlers.dfy`, `Outcomes.dfy`, `Services.dfy` | the handlers cut at their store calls, what they answer and keep, the two services as classes |
| `Listings.dfy`, `ApiWalks.dfy` | label-selected listings, pages and walks of the API |
| `Status.dfy`, `Reconciler.dfy` | the computed status, one reconcile, one pass, the controller as a class |
| `ControlPlane.dfy` | the state machine: pending handlers, the reconciler's snapshot, the history of every row; the invariant of every run |
| `Lineages.dfy`, `Atomicity.dfy`, `Soundness.dfy`, `Orphans.dfy`, `Churn.dfy`, `Transitions.dfy` | the properties of runs |
| `Limits.dfy` | runs in which a property fails, for every choice of specs, and a listing that never ends |
| `Migrations.dfy`, `Apply.dfy` | the migration runner with crashes, and `apply` |

A run is a list of actions: the two halves of a create or an update, a delete, a listing by the
reconciler, and a reconcile of one listed record. Runs come in four disciplines
(`ControlPlane.Discipline`). `AnyRun` asks only that uids are never reused. `OneIncarnation` also asks
that no pending write meets a row that was deleted and created anew since it was read. `HonestTokens`
further asks that an update carries a version that the row had before the handler reads; this is weaker
than asking that the server returned it. `HonestClients` asks besides that a status sent with an update
is borne out by then: some version of the row carried it, has a later generation than it observed, or
has the spec and generation it reports on.

A row's history is indexed by its uid, so that a re-created row starts a new one. Integers are
unbounded: the version and generation columns are 64 bits wide in the code, and no wrap-around is
modelled.

Where the code and its documentation disagree, the model follows the code:

- `matchesLabels` reads a missing label as the empty string, while `internal/store/store.go:74-76` asks
  for every key to be present. `Paging.MatchesAsDocumentedExactlyUnless` says exactly where they differ.
- `proto/kestrai/v1alpha1/meta.proto:47-48` promises that writes with a stale token are rejected. Versions
  restart at 1 when a row is created anew, and an update does not compare uids, so a token of a deleted
  row can be accepted for its successor: `Limits.RecreatedWorkflowLosesItsSpec`. The exact condition is in
  `Lineages.ReconcilerOverwritesWhatItListed` and `Lineages.UpdateOverwritesWhatItRead`.
- `internal/store/store.go:85-86` describes a continue token that resumes the listing. The token is cut at
  the first NUL byte, and names are only checked for being non-empty, so a project with a NUL byte in its
  name is listed again from an earlier place: `Walks.NextPageRepeats`, `Limits.OneByOneNeverEnds`. The exact
  conditions are in `Walks.StaticWalkIsTheListing` and `Walks.WalkEndsExactly`.
- `proto/kestrai/v1alpha1/meta.proto:58-60` describes deletion by finalizers. The delete handlers remove the row at
  once.

## Model

| member | source | states |
|---|---|---|
| Atomicity.RunIsAtomic | internal/server/workflow.go:116-157 | In any interleaving of clients with honest tokens, whatever statuses they send, the table and every answer given are those of the run in which every handler and every reconcile happens at once; the one exception, a create of a Workflow whose Project is gone by then, appears in that run as an insert of its own kind |
| Atomicity.RunFromStartIsAtomic | internal/reconciler/reconciler.go:116-147 | The same for every run from the empty table of clients with honest tokens, or honest tokens and statuses, the reconciler's snapshot and all pending handlers included |
| Atomicity.OnlyProjectDeletesBreakCreates | internal/server/workflow.go:47-53 | In a run that deletes no Project the exception does not occur: every handler is whole |
| Atomicity.CreateIsAtomicExactly | internal/server/workflow.go:47-63 | The second half of a create stores and answers what the whole handler would at that moment if and only if the Project of the Workflow is still there |
| Atomicity.CreatedOrphanExactly | internal/server/workflow.go:47-63 | After the second half of a create the Workflow's Project is there if and only if it was there right before; what comes later is in Orphans |
| Atomicity.CreateIsAtomic | internal/server/workflow.go:47-63 | With anything in between but a delete of that Project, a create is the whole handler at the moment of its write |
| Orphans.StepOrphansExactly | internal/server/project.go:148-161 | Where every Workflow has its Project, a step of any client leaves it so if and only if it is neither the delete of a Project that a stored Workflow names nor the insert of a Workflow whose Project has gone since it was looked up |
| Orphans.RunOrphansExactly | internal/server/workflow.go:47-63 | Every Workflow has its Project in all states of a run if and only if no step of it is one of these two |
| Orphans.NoProjectDeletesNoOrphans | internal/server/project.go:148-161 | A run that deletes no Project, with any creates pending, leaves no orphan |
| Orphans.RunFromStartOrphansExactly | internal/server/project.go:148-161 | Both from the empty table |
| Atomicity.UpdateIsAtomic | internal/server/project.go:106-146 | The second half of an honest update, with anything in between, stores and answers (object or error) exactly what the whole handler would at that moment |
| Atomicity.UpdateIsAtomicByCount | internal/server/workflow.go:131-151 | With an arbitrary token and on any incarnation, an accepted write is the whole handler at that moment if and only if the generation computed from the read is the one computed from the row it replaces |
| Atomicity.UpdateIsAtomicExactly | internal/server/workflow.go:131-151 | On the incarnation that was read that is so if and only if the spec has not changed since the read, or has changed once and to the spec being written |
| Atomicity.UpdateCountsByCount | internal/server/workflow.go:140-151 | An accepted write keeps generation equal to one plus the number of spec changes, in whichever lineage it lands on, under the same condition as it is atomic and no other |
| Atomicity.UpdateCountsExactly | internal/server/workflow.go:140-151 | On the incarnation that was read that is when the spec has not changed since, or has changed once and to the spec being written |
| Atomicity.ReconcileIsAtomic | internal/reconciler/reconciler.go:114-147 | Reconciling a listed record either reconciles the current row or changes nothing |
| Lineages.StatusSoundness | internal/reconciler/reconciler.go:149-190 | In every run of clients with honest tokens and honest statuses (copied from the row, outdated, or right about a version it had), a stored status that has observed the row's generation says in both conditions whether the stored spec is runnable |
| Lineages.UpdateIsSoundExactly | internal/server/workflow.go:140-151 | With an arbitrary status, the row an update stores is sound if and only if the status sent is absent, has not observed the generation the handler computes, or is right about the spec sent |
| Soundness.StepSoundExactly | internal/reconciler/reconciler.go:114-147 | Where all statuses are sound, a step of any client or of the reconciler, on any incarnation, leaves them so if and only if it is not an update that stores a wrong status at the generation it stores |
| Soundness.RunFromStartSoundExactly | internal/server/workflow.go:140-151 | In any run from the start all statuses are sound in all states if and only if every stored update sends a sound one |
| Lineages.GenerationCountsSpecChanges | internal/server/workflow.go:140-151 | In every run of clients with honest tokens, whether or not their statuses are, the generation is one plus the number of stored spec changes, at most the version; along a row's history it never decreases and each generation has one spec |
| Lineages.NoLostUpdates | internal/store/sqlite.go:133-183 | In every run the version is one plus the number of updates stored on that incarnation, each version is stored once and never rewritten, and uid, key and creation time never change |
| Lineages.ReconcilerOverwritesWhatItListed | internal/reconciler/reconciler.go:135-146 | A successful reconciler write replaces exactly the listed version if and only if the row still has the listed uid, and then stores the current row reconciled |
| Lineages.UpdateOverwritesWhatItRead | internal/store/sqlite.go:145-157 | A successful update replaces exactly the version its handler read if and only if the uid is the same and the client's token was that version |
| Lineages.HonestUpdateReplacesWhatItRead | internal/server/workflow.go:130-151 | With an honest token and one incarnation, a successful update replaces exactly the version its handler read |
| Lineages.ColumnsAlwaysAgree | internal/server/resources.go:94-110 | In every run, whatever clients send, tenant, project, name, generation and labels of every stored version agree with its body |
| ControlPlane.StepKeepsInv | internal/store/sqlite.go:74-214 | Every step of every actor keeps the lineages, the table, what is held by pending handlers and the snapshot consistent, and only appends to history |
| ControlPlane.RunKeepsInv | internal/store/sqlite.go:48-50 | The same along every run |
| Churn.CountersCount | internal/reconciler/reconciler.go:138-146 | What is bounded: each create or update that changes the table is counted once for the handlers, each reconcile that does once for the reconciler, and nothing else |
| Churn.BoundedChurn | internal/reconciler/reconciler.go:100-147 | In every run, re-creations under a pending reconcile included, the reconciler stores at most as many rows as the handlers do plus the keys that were due at the start: unconverged, or listed in another incarnation |
| Churn.NoMoreReconcilesThanWrites | internal/reconciler/reconciler.go:100-147 | From the start of any run the reconciler has stored no more rows than the handlers |
| Churn.BoundedChurnInPlace | internal/reconciler/reconciler.go:100-147 | In a run in which no pending write meets a re-created row, only the keys that were unconverged at the start count |
| Churn.WrittenIsConverged | internal/reconciler/reconciler.go:125-146 | What a reconcile stores is converged, over a row of another incarnation too |
| Churn.OneFewer | internal/reconciler/reconciler.go:125-138 | A successful reconcile of what was listed leaves exactly one key fewer unconverged |
| Churn.QuietPassConverges | internal/reconciler/reconciler.go:97-112 | From any state of any run, an undisturbed listing and visit of every listed key, in any order, converges every default-tenant Workflow and leaves nothing to visit, and the next pass stores nothing |
| Reconciler.PassConverges | internal/reconciler/reconciler.go:97-147 | A pass leaves specs, labels, generations, identities, other kinds and other tenants as they were, every Workflow converged and reporting on its spec, and a second pass changes nothing whatever the clock reads |
| Reconciler.ReconcileConverges | internal/reconciler/reconciler.go:114-147 | One reconcile converges a row and moves only its version and its status, which becomes the computed one, its run counters kept or, on a first status, zero |
| Reconciler.DesiredWriteKeeps | internal/reconciler/reconciler.go:125-136 | The attempted write differs from the listed record only in the status, which reports on the listed spec and generation |
| Reconciler.Controller.ReconcileWorkflow | internal/reconciler/reconciler.go:116-147 | The method stores what one reconcile of a listed record stores, and nothing on a conflict or a missing row |
| Reconciler.Controller.ReconcileAll | internal/reconciler/reconciler.go:100-112 | The loop over the listing turns the table into that of an undisturbed pass |
| Status.ComputedReports | internal/reconciler/reconciler.go:152-190 | Whatever the prior status and clock, both conditions say whether the spec has a goal and at least one phase, all named, for the given generation |
| Status.ComputedReasons | internal/reconciler/reconciler.go:159-190 | The two conditions, in order, give the reason and message of what a spec lacks first: the spec, a goal, a phase, or names for all phases; Ready repeats the message of Validated when it fails |
| Status.ComputedCounters | internal/reconciler/reconciler.go:152-157 | The run counters of the prior status are carried over, and start at zero without one |
| Status.FindsFirst | internal/reconciler/reconciler.go:213-220 | The prior condition of a type is the first one of that type |
| Status.FindsNone | internal/reconciler/reconciler.go:213-220 | Without one there is none |
| Status.ComputeIsFixedPoint | internal/reconciler/reconciler.go:149-171 | Computing a status from a computed status returns it unchanged for any two clock readings |
| Status.ConvergedIgnoresClock | internal/reconciler/reconciler.go:125-128 | Whether a status is converged does not depend on the clock |
| Status.TransitionTimeIsStartOfRun | internal/reconciler/reconciler.go:192-211 | From any prior status and through any sequence of reconciles, a condition's last transition time is the reading of the reconcile that began its current run of equal values, or what the prior status said if the run is older |
| Transitions.StatusIsThatOfItsVisits | internal/reconciler/reconciler.go:125-138 | Between any two states of a run whose updates carry the row's current status, a row's status changes as by its stored reconciles alone |
| Transitions.UpdateKeepsStatusExactly | internal/server/workflow.go:145-151 | An update leaves every status as it is if and only if, when it is stored, it carries the status the row has by then |
| Transitions.UpdateKeepsTimesExactly | internal/server/workflow.go:145-151 | An update leaves the value and transition time of a type of condition as they are, in all rows, if and only if, when it is stored, it says the same of that condition as the row does by then |
| Transitions.ViewIsThatOfItsVisits | internal/reconciler/reconciler.go:192-211 | Between any two states of a run whose updates do so, that value and time change as by the stored reconciles alone |
| Transitions.TransitionTimes | internal/reconciler/reconciler.go:194-211 | After any such run from the start, whatever else of the status its updates change, the condition of a reconciled Workflow dates from the stored reconcile that began its current run of equal values |
| Walks.WalkUnderMutation | internal/store/sqlite.go:219-295 | In a completed walk with any writes between pages and any limits, every key present and matching throughout is returned; if no page but the last ends in a project with a NUL byte, keys strictly ascend and each of these is returned exactly once |
| Walks.PageSplits | internal/store/sqlite.go:260-295 | A page has a next token exactly when more matching rows remain; past its last row lies exactly the remainder; the token decodes to that row if and only if its project holds no NUL byte, and otherwise to an earlier project, so that the row is listed again |
| Walks.StaticWalk | internal/store/sqlite.go:286-295 | On a table that does not change, fetching page after page ends and returns the listing cut at the limits, unless one of these cuts falls behind a project with a NUL byte |
| Walks.StaticWalkIsTheListing | internal/store/sqlite.go:216-273 | A completed walk from the first page returns what one unlimited call does if and only if no page but the last ends in a project with a NUL byte |
| Walks.StaticWalkFrom | internal/store/sqlite.go:286-314 | From any token, the keys of a completed walk strictly ascend if and only if no page but the last ends in a project with a NUL byte, and then it returns the whole rest of the listing |
| Walks.WalkEndsExactly | internal/store/sqlite.go:245-255 | Paging through one project ends if and only if its name holds no NUL byte or some limit takes in the whole listing |
| Walks.OneByOneEndsExactly | internal/store/sqlite.go:286-314 | Fetching the rows of any listing, across projects too, one at a time ends if and only if no row but the last has a NUL byte in its project |
| Walks.NextPageRepeats | internal/store/sqlite.go:297-314 | The page after one that ends in a project with a NUL byte starts again at or before that page's last row, whatever its limit |
| Paging.TokenRoundTrip | internal/store/sqlite.go:297-314 | A token is never empty and decodes to its cursor if and only if the project holds no NUL byte |
| Paging.TokenResumes | internal/store/sqlite.go:297-314 | Otherwise it decodes to the part of the project before the first NUL, which is an earlier project |
| Paging.TokenErrsExactly | internal/store/sqlite.go:301-314 | A token is an error exactly if it is not empty and does not decode or its bytes hold no NUL |
| Paging.ListedExactly | internal/store/sqlite.go:219-267 | A listing holds exactly the rows of the tenant, the kind and, if one is asked for, the project, past the cursor, with the labels asked for; by project and then by name, bytes compared one by one |
| Bytes.LessExactly | internal/store/sqlite.go:279-284 | The order is that of the smaller byte where two strings first differ, a prefix coming before what extends it |
| Paging.CollectMembers | internal/store/sqlite.go:240-267 | A listing holds exactly the matching rows past the cursor |
| Paging.CollectAscending | internal/store/sqlite.go:220-227 | A listing strictly ascends by project and name |
| Paging.MatchesAsDocumentedExactlyUnless | internal/store/sqlite.go:316-323 | Label matching is as documented except for selectors that ask for the empty value of an absent label |
| Base64.RoundTrip | internal/store/sqlite.go:297-306 | base64url decoding inverts encoding for all byte strings and length residues |
| Base64.EncodesByQuanta | internal/store/sqlite.go:297-299 | Three bytes at a time, one or two at the end as if followed by zero bits, without padding |
| Base64.QuantumHoldsBits | internal/store/sqlite.go:297-299 | The four characters of three bytes hold their 24 bits, most significant first |
| Base64.AlphabetIsTheTable | internal/store/sqlite.go:297-299 | The alphabet is that of RFC 4648, section 5 |
| Base64.DecodeFailsExactly | internal/store/sqlite.go:305-308 | Decoding fails exactly on a character that is neither of the alphabet nor a line break, or on one left over |
| Bytes.DecimalInjective | internal/store/sqlite.go:155-157 | Comparing decimal version text is comparing the counters |
| Bytes.DecimalIsDigits | internal/store/sqlite.go:252 | The decimal text is digits without a leading zero |
| Table.ReplaceContract | internal/store/store.go:103-106 | Update succeeds exactly on the current version, keeps identity and creation time, counts one up, and changes nothing on its two errors |
| Store.SqliteStore.Create | internal/store/sqlite.go:74-117 | The class keeps its rows ordered with unique uids and refines the map insert |
| Store.SqliteStore.Get | internal/store/sqlite.go:120-130 | The indexed read is the map lookup |
| Store.SqliteStore.Update | internal/store/sqlite.go:133-183 | The class refines the map replace |
| Store.SqliteStore.Delete | internal/store/sqlite.go:186-214 | The class refines the map removal |
| Store.SqliteStore.ListRecords | internal/store/sqlite.go:219-273 | The loop over the ordered rows answers the specified page and token, or the token error |
| Store.InsertKeepsOrder | internal/store/migrations/0001_init.sql:36-55 | Inserting at the index position keeps strict key order and unique uids, and adds exactly that row |
| Handlers.CreateReadsBack | internal/server/workflow.go:55-68 | What create returns is what get then decodes, with assigned uid, version 1, generation 1 and creation time, whatever the request carried |
| Handlers.UpdateReadsBack | internal/server/resources.go:112-125 | What update returns is what get then decodes, with the uid and creation time of the replaced row and the next version |
| Outcomes.CreateAnswers | internal/server/workflow.go:37-66 | A create is InvalidArgument, FailedPrecondition, AlreadyExists or Internal, or succeeds, each if and only if the request and the table say so |
| Outcomes.CreateChanges | internal/store/sqlite.go:74-117 | A create that fails changes nothing; one that succeeds adds the first version of its key and nothing else |
| Outcomes.CreateKeeps | internal/server/project.go:43-59 | The answer has the name, labels, annotations, finalizers, deletion time and spec that were sent, no status, and the rest as assigned, field by field |
| Outcomes.UpdateAnswers | internal/server/resources.go:53-65 | An update is InvalidArgument, NotFound, Internal or Aborted, or succeeds, each if and only if the request and the row say so; Aborted for a version that is not the stored one |
| Outcomes.UpdateChanges | internal/store/sqlite.go:133-183 | An update that fails changes nothing; one that succeeds replaces the row by its next version, of another generation exactly if the spec differs |
| Outcomes.UpdateKeeps | internal/server/workflow.go:140-156 | The answer has the spec, status and free metadata that were sent, and the rest as stored, field by field, for Projects and Workflows |
| Outcomes.GetAnswers | internal/server/workflow.go:71-84 | A get is InvalidArgument, NotFound or Internal, or succeeds, each if and only if the request and the table say so |
| Outcomes.GetShows | internal/server/resources.go:112-125 | It answers the body of the row with key, uid, version, generation and creation time as the columns have them |
| Outcomes.DeleteAnswers | internal/server/workflow.go:159-172 | A delete answers what a get would have, and takes away that row and no other, or none if it is refused |
| Listings.SelectedByDecodedLabels | internal/server/workflow.go:86-114 | In every state of every run a label-selected listing is exactly the stored objects in scope whose decoded labels satisfy the parsed selector |
| Listings.PageAnswers | internal/server/workflow.go:86-114 | A list call of any page size and token is InvalidArgument exactly for a bad selector, Internal for a bad token or body, and otherwise answers the rows past the token, as many as the page holds, in order and as a client sees them, with a token exactly if there are more, which leads on from the last |
| ApiWalks.ApiWalkUnderMutation | internal/server/workflow.go:86-114 | Walking the API with any writes between the pages returns every object that is there throughout; in ascending order and exactly once if no page but the last ends in a project with a NUL byte |
| ApiWalks.ApiWalkIsTheListing | internal/server/workflow.go:91-113 | Walking the API while nothing changes returns what one unlimited call does if and only if no page but the last ends in a project with a NUL byte |
| ApiWalks.WalkIsApiWalk | internal/server/workflow.go:102-113 | As long as no call fails, every completed walk of the store is one of the API, page for page |
| Services.WorkflowService.CreateWorkflow | internal/server/workflow.go:37-69 | The handler is its two halves run back to back |
| Services.WorkflowService.GetWorkflow | internal/server/workflow.go:71-84 | The handler answers the decoded row or the mapped error |
| Services.WorkflowService.ListWorkflows | internal/server/workflow.go:86-114 | The loop decodes every listed record or stops at the first that fails |
| Services.WorkflowService.UpdateWorkflow | internal/server/workflow.go:116-157 | The handler is its two halves run back to back |
| Services.WorkflowService.DeleteWorkflow | internal/server/workflow.go:159-172 | The handler removes the row and answers it decoded |
| Services.ProjectService.CreateProject | internal/server/project.go:36-60 | The handler is its two halves run back to back |
| Services.ProjectService.GetProject | internal/server/project.go:62-75 | The handler answers the decoded row or the mapped error |
| Services.ProjectService.ListProjects | internal/server/project.go:77-104 | The loop decodes every listed record or stops at the first that fails |
| Services.ProjectService.UpdateProject | internal/server/project.go:106-146 | The handler is its two halves run back to back |
| Services.ProjectService.DeleteProject | internal/server/project.go:148-161 | The handler removes the row and answers it decoded; no Workflow is looked at |
| Limits.RecreatedWorkflowLosesItsSpec | internal/store/sqlite.go:92-94 | For any two specs there is a run, honest up to that write, in which a re-created Workflow is overwritten with its predecessor's spec |
| Limits.UnissuedTokenBreaksGenerations | internal/server/workflow.go:140-149 | For any three different specs there is a run without re-creations, with a token sent before it existed, in which one generation has two specs; the exact condition is Atomicity.UpdateCountsExactly |
| Limits.MadeUpStatusIsStored | internal/server/workflow.go:145-151 | For any made-up ready status there is a run of clients with honest tokens that stores it, at the current generation, on a Workflow that is not runnable; the exact condition is Soundness.StepSoundExactly |
| Limits.OrphanWorkflow | internal/server/workflow.go:47-63 | There is a run of honest clients in which a Workflow is stored after its Project has been deleted; the exact condition for this is Atomicity.CreateIsAtomicExactly, and for orphans of either kind Orphans.StepOrphansExactly |
| Limits.OrphanedByDelete | internal/server/project.go:148-161 | There is a run of honest clients, atomic throughout, in which a Workflow outlives its Project; the exact condition is Orphans.StepOrphansExactly |
| Limits.DroppedStatusLosesItsTimes | internal/reconciler/reconciler.go:194-211 | For any spec there is a run of honest clients in which an update without a status makes the next reconcile date a condition anew although its value never changed; the exact condition is Transitions.UpdateKeepsTimesExactly |
| Limits.OneByOneNeverEnds | internal/store/sqlite.go:286-306 | With two Workflows or more in a project with a NUL byte in its name, fetching them one at a time never ends; the exact conditions are Walks.WalkEndsExactly and Walks.OneByOneEndsExactly |
| Selector.ParseLabelSelector | internal/server/resources.go:70-88 | The loop over the terms answers the specified labels or InvalidArgument |
| Selector.ParseInvertsPrint | internal/server/resources.go:68-88 | A map printed in any order, with blank terms and white space anywhere around keys and values, parses back to the map |
| Selector.ParseFailsExactlyOnBadTerms | internal/server/resources.go:76-84 | Parsing fails exactly when some nonblank term has no '=' |
| Selector.LastTermDecides | internal/server/resources.go:76-86 | Each key of a selector has the value that the last term naming it gives |
| Selector.WordExactly | internal/server/resources.go:81-85 | A term gives what stands before and after its first '=', trimmed |
| Selector.SplitExactly | internal/server/resources.go:76 | The terms of a selector are the only comma-free strings that joined by commas make it |
| Trimming.TrimUnique | internal/server/resources.go:77-84 | Trimming takes off all Unicode white space around a core that neither begins nor ends with any |
| Trimming.TrimCore | internal/server/resources.go:71 | Every string, valid UTF-8 or not, is its trimmed core with white space around it |
| Trimming.SpacesAreWhiteSpace | internal/server/resources.go:71 | What is trimmed are the UTF-8 encodings of the code points with the property White_Space |
| Migrations.AlwaysAPrefix | internal/store/migrate.go:29-31 | After any releases, starts and crashes the committed scripts are a prefix of the released ones in ascending order, each committed once, and exactly their versions are recorded |
| Migrations.StartExtends | internal/store/migrate.go:93-101 | A start commits the missing scripts in order, as many as it gets to, and succeeds exactly when none is missing |
| Migrations.CompletedRunIsFinal | internal/store/migrate.go:73-75 | A start that succeeds has committed every released script, and the next one changes nothing |
| Migrations.Database.ApplyMigration | internal/store/migrate.go:122-138 | One transaction runs the script and records it, or does neither |
| Migrations.Database.Migrate | internal/store/migrate.go:75-102 | The loop over the sorted scripts is the specified run |
| Apply.Client.ApplyProject | internal/cli/apply.go:90-111 | Get, then create, or update under the version read |
| Apply.Client.ApplyWorkflow | internal/cli/apply.go:113-136 | Get, then create, or update under the version read |
| Apply.Client.RunApply | internal/cli/apply.go:67-74 | The loop applies the resources in order up to the first error |
| Apply.ApplyAnswers | internal/cli/apply.go:90-136 | Applying a resource answers configured exactly if it is there, created exactly if it was not and could be created, and otherwise why not, changing nothing |
| Apply.ApplyKeeps | internal/cli/apply.go:113-136 | An applied resource reads back with the spec, labels, annotations, finalizers and deletion time of the file, and the file's status if it was there or none if it was created |
| Apply.ApplyVerbs | internal/cli/apply.go:67-74 | For each resource of a file, in order: created exactly if it was not there and the file had not named it before |
| Apply.ApplyStopsAtFirstError | internal/cli/apply.go:67-74 | A file that fails has been applied up to the resource that fails, and the error is that of this resource |
| Apply.ApplyFileApplies | internal/cli/apply.go:77-88 | A file applied without an error leaves every resource in it stored with the spec and labels of the last time the file names it |
| Apply.ReapplyIsIdempotent | internal/cli/apply.go:105-110 | Applying the file again with nothing in between reports every resource configured and moves no spec, label, uid or creation time and no other row; a generation moves if and only if the file gives the resource more than one spec |
| Apply.ApplyIsHonest | internal/cli/apply.go:105-107 | Whatever happens after its get, as long as the row is not created anew, the update that apply sends carries an honest token, and an honest status if the file has none |
| Apply.ApplyStoresExactly | internal/cli/apply.go:105-110 | As long as the row is not created anew, that update is stored if and only if the row is still as apply's own get found it |

## Left out

- Walks.WalkEndsExactly: is about the listing of one project. Across projects the exact condition is stated for pages of one row (`Walks.OneByOneEndsExactly`); for larger pages there is only that of `Walks.StaticWalk`, because how far a walk goes back then depends on every earlier cut.
- gRPC, protobuf encoding, JSON and SQL text: bodies are typed values, marshalling is the identity, and a body of another kind fails to unmarshal; that none is stored is part of the invariant.
- Messages as objects: the handlers overwrite fields of the request message in place; here a message is a value that a method replaces, so aliasing of messages is not captured.
- SQL failures other than the three sentinel errors, the foreign key on tenants and the unique uid column.
- Uid bytes and clock readings: a uid is an input that was never used before, and every clock reading is an arbitrary input.
- Time formats: the text written for a creation time is taken to parse back to it.
- 64-bit overflow of versions and generations.
- Labels and names that are not valid UTF-8, which protobuf and JSON would reject or replace.
- Authentication, tenant resolution and the interceptor: the tenant is an input of every call.
- The ticker and cancellation of the reconciler: listings and visits come at any time, and a new listing may abandon an old one.
- Names of migration files and their parsing into version numbers: a script has its version.
- Scanning of files and YAML, rendering, flags and process start-up of the command line.
- Deadlines of client calls in `apply`: a call either answers or the file stops there.
