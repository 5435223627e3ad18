# Verified models of the document-management services

This project models, in Dafny, the stateful protocols of a set of cooperating services and proves
what they promise: workflows with administrative review cycles, an organizational structure
shared by several services, document typologies with versions, refresh tokens and lockout, plus
the import, pagination and address-matching code beside them. `dafny verify dfyconfig.toml` checks
everything.

## What is here

**Administrative cycles (workflow-service).** `AdminCycle` gives each transaction as a function
from the rows of one workflow to the rows it leaves or the error it answers; every transaction
locks the workflow row, so a run is a sequence of requests. `AdminCycleInvariant` proves that every
run keeps the shape of the cycles, `AdminCycleTheorems` what follows for callers, and
`AdminCycleProgress` how many calls a cycle takes. `AdminCycleShift` is the bulk update of step
orders under the unique key, row by row, `AdminCycleResults` says what each request leaves behind and
why it is refused. `AdminCycleService` is the service as it is written, a class that updates the rows
in place, carries the invariant and says what each request means.

**Organizational structure (org-service).** `StructureProtocol` is a state machine over single
statements of interleaved transactions: shared and exclusive row locks with queues, reads of
committed rows, private writes, commit or rollback anywhere, external reference counts, 30 s
leases and a database clock. `StructureSafety` proves that no node is orphaned, `StructureProgress`
that nothing deadlocks, `StructureLeases` that no reference is left to a deleted node when two
timing bounds fit into the lease, `StructureTightness` that this inequality cannot be weakened, and
`StructureSweeps` that sweeping expired leases is invisible. `StructureResults` says what a commit
leaves behind in any interleaving, `StructureAlone` exactly when each request takes effect by itself.
`LeaseTable` is the lease table updated in place. `StructureImport`, `StructureImportTheorems` and
`StructureImportService` cover the sheet import and the two look-ups.

**Typology versions (document-service).** `TypologyPair` follows the old and the new version of one
transition through any collection, `TypologyStore` says which state a whole half-written collection
stands for; `TypologyTransition` runs the new-version operation and the startup sweep write by
write, where every call may work, fail, take effect without acknowledgement, or end the process
before or after it. A ghost history records each intermediate collection. `Versions` is the dotted
version arithmetic, `Extraction` the extraction and resolution state machine and the atomic retry
claim.

**Tokens and lockout (auth-service).** `AuthTokens` interleaves refresh, exit, switch, revocation,
expiry and eviction command by command over a keyed store; `AuthTokensSafety` and
`AuthTokensConservation` prove that tokens are linear; `AuthTokenService` is the service over Redis
in place, whose requests are runs of that state machine. `Lockout` bounds how fast passwords can
be tried.

**Smaller cores.** `OrgPages` (keyset pagination) and `Cidr` (IPv4 matching over 32-bit words).
`Rows`, `Text` and `Wrappers` hold the array, string and result idioms they share, `Typologies` what
the typology models share.

Where code and expectation differ, the code is kept and the exact condition is proved:

- Pagination cursors carry whole milliseconds while the column holds microseconds, so a walk is
  right exactly when its page boundaries fall on whole milliseconds (`OrgPages`).
- The bulk shift of a forward is commented as avoiding the unique key on cycle and order, but the key
  is checked row by row: the shift passes exactly when the later rows are visited from the last to
  the first (`AdminCycleShift.ShiftPassesExactly`), and a three-step cycle visited in the order of
  its insertion is refused (`AdminCycleTheorems.RightForwardRefused`).
- Restoring a department-level cargo does not look at the departamento
  (`StructureTightness.RestoreDeptKeepsExactly`, `StructureTightness.RestoreDeptCanOrphan`).
- Import errors carry the number of the row among the parsed ones, which is its row in the sheet
  exactly when nothing was left out before it (`StructureImport.CountIsSheetRowExactly`).
- A retry is meant to wait for 15 minutes after another one, but an upload writes back the start it
  took before saving; a further retry has to wait that long exactly if it is impossible anyway or
  the start last written is not earlier than the first retry's (`Extraction.NextClaimIsFarExactly`, `Extraction.SlowUploadLetsBothThrough`).
- Recovery takes a recorded file key for the file. The file is missing exactly if the write that
  recorded the key was not acknowledged and the service then removed the file
  (`TypologyTransition.FileCanBeLost`).
- The guard of completing a step admits statuses in which there is nothing to complete; it is sound
  only because of the invariant (`AdminCycleTheorems.CompleteGuardAloneIsLoose`).
- The documentation of the lease service calls its bound generous headroom; `StructureTightness`
  shows where it ends.

## Model

| member | source | states |
|---|---|---|
| AdminCycleInvariant.EveryRunKeepsInvariant | services/workflow-service/src/workflows/workflow-admin-cycle.service.ts:54-159 | from a workflow without an active cycle, every sequence of create, complete, forward, skip, close and cancel requests ends in a state where each cycle has orders 1..n, an open cycle is done before, pending at and waiting after its current order, optional steps sit where they were inserted, and the workflow row agrees with the cycles |
| AdminCycleInvariant.CreateKeeps | services/workflow-service/src/workflows/workflow-admin-cycle.service.ts:60-70 | a created cycle has one step per requested order, the first pending and the rest waiting, and is the only open one |
| AdminCycleInvariant.CompleteKeeps | services/workflow-service/src/workflows/workflow-admin-cycle.service.ts:239-318 | completing the current step either makes the next order current or finishes the cycle, in both cases keeping the whole invariant |
| AdminCycleInvariant.ForwardKeeps | services/workflow-service/src/workflows/workflow-admin-cycle.service.ts:441-547 | a forward that takes effect, shifting every later order by one and inserting the optional step, keeps the whole invariant |
| AdminCycleTheorems.OrdersAreOneToN | services/workflow-service/src/workflows/workflow-admin-cycle.service.ts:513-539 | in every cycle each of the orders 1..n is held by exactly one step |
| AdminCycleTheorems.OpenCycleFront | services/workflow-service/src/workflows/workflow-admin-cycle.service.ts:288-318 | in an open cycle a step is completed, pending or waiting exactly when its order is below, at or above the current one, and the workflow is assigned to the user of the pending step |
| AdminCycleTheorems.ForwardKeepsRelativeOrder | services/workflow-service/src/workflows/workflow-admin-cycle.service.ts:513-539 | after a forward the line of steps is the old line with one new step right behind the current one |
| AdminCycleTheorems.OptionalFollowsItsForwarder | services/workflow-service/src/workflows/workflow-admin-cycle.service.ts:459-480 | in every reachable cycle an optional step follows directly on the completed mandatory step that inserted it, its user is in the allowed pool and differs from the user right after it |
| AdminCycleTheorems.OptionalsNeverOutnumber | services/workflow-service/src/workflows/workflow-admin-cycle.service.ts:456-461 | a cycle never holds more optional than mandatory steps |
| AdminCycleTheorems.StatusMatchesOpenCycle | services/workflow-service/src/workflows/workflow-admin-cycle.service.ts:154-159 | over every run the workflow is in an admin cycle iff an active cycle is recorded iff exactly that one cycle is open |
| AdminCycleTheorems.TerminalIsFinal | services/workflow-service/src/workflows/workflow-admin-cycle.service.ts:792-797 | a closed, cancelled or rejected workflow has no open cycle and no unfinished step, and no request changes it again |
| AdminCycleTheorems.StatusWritesFollowTheTable | services/workflow-service/src/workflows/workflow-state-machine.ts:23-42 | a request that succeeds changes the status only along an edge of the transition table, and only creating a cycle enters one |
| AdminCycleTheorems.CompleteSucceedsExactly | services/workflow-service/src/workflows/workflow-admin-cycle.service.ts:222-246 | although the status guard also admits two other statuses, completing succeeds exactly on the current step of the active cycle, by its assigned user |
| AdminCycleTheorems.CompleteGuardAloneIsLoose | services/workflow-service/src/workflows/workflow-admin-cycle.service.ts:228-236 | a concrete state outside the invariant in which completing succeeds although no cycle is in progress: the guard alone does not suffice |
| AdminCycleTheorems.ForwardSucceedsExactly | services/workflow-service/src/workflows/workflow-admin-cycle.service.ts:430-522 | forwarding succeeds exactly on a mandatory current step of the active cycle, by its user, to a reviewer of the allowed pool other than the user of the next step, and only if the bulk shift comes across the later rows from the last to the first |
| AdminCycleShift.ShiftPassesExactly | services/workflow-service/src/migrations/1714300000000-InitialWorkflowSchema.ts:264 | under the key on cycle and order, checked row by row, the bulk shift goes through exactly when the later rows are visited in descending order, and then moves each by one |
| AdminCycleTheorems.ShortTailForwards | services/workflow-service/src/workflows/workflow-admin-cycle.service.ts:513-522 | with at most one later step every visiting order is fine |
| AdminCycleTheorems.FirstFirstFails | services/workflow-service/src/workflows/workflow-admin-cycle.service.ts:513-522 | whenever some later step is visited before the one right behind it, the forward fails |
| AdminCycleTheorems.RightForwardRefused | services/workflow-service/src/workflows/workflow-admin-cycle.service.ts:513-522 | a reachable request that is refused though user, step and reviewer are right: three steps, the first forwarded, rows visited in the order of insertion |
| AdminCycleTheorems.AcceptedOrders | services/workflow-service/src/workflows/workflow-admin-cycle.service.ts:60-67 | the requested orders pass the gap and start checks exactly when they are a permutation of 1..n with n > 0 |
| AdminCycleTheorems.CreateSucceedsExactly | services/workflow-service/src/workflows/workflow-admin-cycle.service.ts:60-119 | creating succeeds exactly for such orders, by a final user, with the review cycle enabled, from a status that allows it and without an active cycle |
| AdminCycleResults.CreateMeans | services/workflow-service/src/workflows/workflow-admin-cycle.service.ts:88-135 | the new cycle is the only change besides the workflow row: its line holds the requested users at the requested places, all mandatory, it belongs to the caller and allows the given reviewers, and the user of place 1 has the workflow |
| AdminCycleResults.CompleteMeans | services/workflow-service/src/workflows/workflow-admin-cycle.service.ts:280-318 | exactly the completed step and, if there is one, the next change status: then its user has the workflow; after the last step the cycle is over and the workflow is available and back with whoever started the cycle; nothing else changes |
| AdminCycleResults.ForwardMeans | services/workflow-service/src/workflows/workflow-admin-cycle.service.ts:513-547 | the reviewer gets a pending optional step right behind the forwarding one, which is done, every later step keeps its place in line one order further on, and the reviewer has the workflow; nothing else changes |
| AdminCycleResults.CompleteRefusals | services/workflow-service/src/workflows/workflow-admin-cycle.service.ts:222-246 | which refusal a request gets, in terms of the rows: no such cycle, cycle over, no such step, not the caller's, not pending; and a wrong status before all of them |
| AdminCycleResults.ForwardRefusals | services/workflow-service/src/workflows/workflow-admin-cycle.service.ts:430-480 | the same for forwarding, and for the own current step: optional, reviewer not allowed, reviewer next anyway, order taken during the shift |
| AdminCycleResults.CreateRefusals | services/workflow-service/src/workflows/workflow-admin-cycle.service.ts:60-119 | which refusal a creation gets: orders that are no permutation of 1..n, status, disabled review cycle, not a final user, in this order |
| AdminCycleProgress.CompleteAccounts | services/workflow-service/src/workflows/workflow-admin-cycle.service.ts:288-318 | a completed step lowers the unfinished steps of its cycle by one, lowers its remaining work, and touches no other cycle |
| AdminCycleProgress.ForwardAccounts | services/workflow-service/src/workflows/workflow-admin-cycle.service.ts:513-544 | a forward lowers the remaining work of its cycle without changing the number of unfinished steps, and touches no other cycle |
| AdminCycleProgress.FinishedMeansNoneLeft | services/workflow-service/src/workflows/workflow-admin-cycle.service.ts:294-306 | a cycle is completed exactly when it has no unfinished step |
| AdminCycleProgress.CycleTakesNToTwoN | services/workflow-service/src/workflows/workflow-admin-cycle.service.ts:456-544 | over any run a cycle created with n steps sees at most n successful complete calls and at most n successful forwards; it is completed exactly when n complete calls succeeded, and 2n successful calls complete it |
| AdminCycleService.WorkflowRows.CreateCycle | services/workflow-service/src/workflows/workflow-admin-cycle.service.ts:54-160 | in place, keeping the invariant: starts the cycle as requested and answers its id, or refuses for the reason stated and changes nothing |
| AdminCycleService.WorkflowRows.CompleteStep | services/workflow-service/src/workflows/workflow-admin-cycle.service.ts:201-318 | in place, keeping the invariant: succeeds exactly on the current step of the active cycle, by its user; the workflow then goes to the user of the next step or, without one, back to whoever started the cycle; a refusal says why and changes nothing |
| AdminCycleService.WorkflowRows.ForwardStep | services/workflow-service/src/workflows/workflow-admin-cycle.service.ts:413-547 | in place, keeping the invariant: the reviewer gets a step right behind the finished one and the workflow; a refusal, also by the key on orders, says why and changes nothing |
| AdminCycleService.WorkflowRows.ShiftLater | services/workflow-service/src/workflows/workflow-admin-cycle.service.ts:515-522 | the bulk update as a loop over the rows in visiting order, refused at the first order that another row still holds |
| AdminCycleService.WorkflowRows.SkipReviewCycle | services/workflow-service/src/workflows/workflow-admin-cycle.service.ts:585-615 | succeeds exactly for a final user while the review cycle is due; every cycle is completed and stays as it is, and every final user can then close or cancel, which none could before |
| AdminCycleService.WorkflowRows.CloseWorkflow | services/workflow-service/src/workflows/workflow-admin-cycle.service.ts:749-797 | succeeds exactly for a final user while no cycle is open or due; afterwards every step of every cycle is done, and no sequence of requests changes the workflow again |
| AdminCycleService.WorkflowRows.CancelWorkflow | services/workflow-service/src/workflows/workflow-admin-cycle.service.ts:834-880 | succeeds exactly as closing does, records who cancelled, and ends the workflow for good in the same sense |
| StructureSafety.NoRunOrphansANode | services/org-service/src/org-structure/areas.service.ts:53-79 | in every interleaving of any number of create, remove and resolve transactions no live area has a deleted departamento and no live cargo a deleted area or departamento |
| StructureSafety.InsertHasParents | services/org-service/src/org-structure/cargos.service.ts:62-104 | when a create commits, the new row names the departamento and the area asked for and its whole chain of parents is live, although creating a cargo in an area locks only the area |
| StructureSafety.DeleteKeepsParents | services/org-service/src/org-structure/areas.service.ts:176-217 | when a remove commits, no live row depends on its target any more |
| StructureSafety.GrantKeeps | services/org-service/src/org-structure/departamentos.service.ts:104-117 | a lock is only granted next to compatible ones, and what the locking read found holds as long as it is held |
| StructureResults.CreateCargoCommits | services/org-service/src/org-structure/cargos.service.ts:62-104 | in any interleaving a create that reaches its commit adds exactly one live cargo under the departamento and the area asked for, or nothing if its id is taken |
| StructureResults.CreateAreaCommits | services/org-service/src/org-structure/areas.service.ts:53-79 | the same for an area |
| StructureResults.RemoveCommits | services/org-service/src/org-structure/areas.service.ts:176-217 | a remove that reaches its commit ends the life of its target, which was live, and changes no other row or column |
| StructureResults.ResolveCommits | services/org-service/src/org-structure/bulk-structure.service.ts:253-323 | a resolve that commits leaves a lease and a claim from the same moment on each node it answers for, and on no other |
| StructureResults.CreatedCargoStopsRemove | services/org-service/src/org-structure/areas.service.ts:190-205 | after any run in which a cargo was created in an area, a remove of the area is refused at its count as long as the cargo lives |
| StructureAlone.CreateAreaAlone | services/org-service/src/org-structure/areas.service.ts:53-79 | by itself, creating an area takes effect exactly under a live departamento |
| StructureAlone.CreateCargoAlone | services/org-service/src/org-structure/cargos.service.ts:62-104 | by itself, creating a cargo takes effect exactly under a live area of the departamento, or without an area under the live departamento |
| StructureAlone.RemoveAlone | services/org-service/src/org-structure/areas.service.ts:162-217 | by itself, a remove takes effect exactly if the target is live and in its place, nothing live is below it, no service refers to it and no lease on it runs |
| StructureAlone.ResolveAlone | services/org-service/src/org-structure/bulk-structure.service.ts:250-323 | by itself, a resolve claims exactly the nodes asked for, with leases of 30 s, if they are live and each below the one before, and otherwise changes nothing |
| StructureProgress.NoRunDeadlocks | services/org-service/src/org-structure/bulk-structure.service.ts:253-312 | after every run with unfinished transactions some transaction is not blocked and its next statement ends it or brings it nearer to its end, even when each row serves its lock queue strictly in order |
| StructureProgress.EveryRunCanFinish | services/org-service/src/org-structure/bulk-structure.service.ts:253-312 | every run can be continued, without rolling anything back, until every transaction has ended |
| StructureProgress.FindRunnable | services/org-service/src/org-structure/cargos.service.ts:281-294 | following blockers always reaches a transaction that nothing blocks, because shared locks go down the tree and a remove waits for one row only |
| StructureLeases.NoRefSlipsThrough | services/org-service/src/org-structure/structure-leases.service.ts:98-106 | no reference persisted in time names the target of a remove whose lease count came out zero |
| StructureLeases.NoDanglingReference | services/org-service/src/org-structure/external-references.guard.ts:44-55 | if callers persist within P of their lease and removes count leases within G of their external counts, then P + G < 30 000 ms means that every persisted reference names a live node |
| StructureTightness.BoundIsExact | services/org-service/src/org-structure/structure-leases.service.ts:20 | whenever P + G reaches the lease time, a run of real statements that meets both bounds leaves a reference to a deleted node |
| StructureTightness.TimelyRunsAreSafeExactly | services/org-service/src/org-structure/structure-leases.service.ts:20 | all runs within the bounds are safe if and only if P + G < 30 000 ms |
| StructureTightness.RestoreDeptKeepsExactly | services/org-service/src/org-structure/cargos.service.ts:333-357 | a restore of a department-level cargo that takes effect keeps the structure free of orphans if and only if the departamento is live, which the code does not check |
| StructureTightness.RestoreDeptCanOrphan | services/org-service/src/org-structure/cargos.service.ts:333-357 | a reachable run in which the restore does orphan: create a departamento and a cargo under it, remove both, restore the cargo |
| LeaseTable.Leases.Reserve | services/org-service/src/org-structure/structure-leases.service.ts:72-95 | every later count is the earlier one plus the new lease for 30 s, whether or not a sweep ran and whether or not it failed |
| LeaseTable.Leases.CountActive | services/org-service/src/org-structure/structure-leases.service.ts:98-106 | counts the unexpired leases of the node; zero means all of them ran out |
| LeaseTable.Leases.SweepExpired | services/org-service/src/org-structure/structure-leases.service.ts:127-153 | removes at most one batch of 500, all expired rows if fewer, nothing on failure, and changes no later count of any node |
| StructureSweeps.SweepsChangeNothing | services/org-service/src/org-structure/structure-leases.service.ts:127-153 | taking every sweep out of any run changes neither rows, locks and phases, claims and references, nor any active count from then on |
| StructureImport.ParsesExactly | services/org-service/src/org-structure/bulk-structure.service.ts:463-474 | parsing keeps exactly the rows whose departamento is not blank, in order, each as the trimmed texts of its own three cells |
| StructureImport.CountIsSheetRowExactly | services/org-service/src/org-structure/bulk-structure.service.ts:72-76 | the number that an error reports, counted over parsed rows, is the row of the sheet if and only if parsing left out no row up to it |
| StructureImport.SkippedRowShiftsCount | services/org-service/src/org-structure/bulk-structure.service.ts:463-474 | a sheet of one empty and one full row, where the one parsed row stands in the second row and is counted as the first |
| StructureImportTheorems.ImportKeeps | services/org-service/src/org-structure/bulk-structure.service.ts:72-127 | any import, with any rows failing at any upsert, keeps names unique within their parent, loses no row, and its created counters equal the growth of each table |
| StructureImportTheorems.CountsMatchRows | services/org-service/src/org-structure/bulk-structure.service.ts:72-102 | without failures created plus existing is the number of rows at each level |
| StructureImportTheorems.SecondImportCreatesNothing | services/org-service/src/org-structure/bulk-structure.service.ts:343-430 | importing the same sheet again leaves the tables as they are and counts every row as existing |
| StructureImportTheorems.MapsAgreeWithScans | services/org-service/src/org-structure/bulk-structure.service.ts:143-236 | the composite-key maps (last entry wins) and plain scans (first match) give the same answer, found or refused for the same reason, for every item |
| StructureImportTheorems.KeyIsScopeAndName | services/org-service/src/org-structure/bulk-structure.service.ts:146-160 | two composite keys of one map are equal exactly when parent and name are |
| StructureImportTheorems.NamesComeBack | services/org-service/src/org-structure/bulk-structure.service.ts:250-323 | resolving by id what a name resolved to returns exactly the names |
| StructureImportTheorems.NamesExactly | services/org-service/src/org-structure/bulk-structure.service.ts:250-323 | with no blank names, a look-up by id answers with names exactly when the ids name nodes of these names in each other |
| StructureImportTheorems.ImportedRowsRoundTrip | services/org-service/src/org-structure/bulk-structure.service.ts:187-323 | whatever fails, each imported row that did not fail is found by name through maps and scans, and its ids resolve back to the row |
| StructureImportTheorems.SheetRowsRoundTrip | services/org-service/src/org-structure/bulk-structure.service.ts:72-127 | the same for the rows of the sheet, under the trimmed texts of their own cells |
| StructureImportTheorems.FoundExactly | services/org-service/src/org-structure/bulk-structure.service.ts:163-236 | a look-up by name answers with a departamento of the name, an area of the name in it and a cargo of the name in the lower of the two, and with nothing else |
| StructureImportTheorems.ReasonsExactly | services/org-service/src/org-structure/bulk-structure.service.ts:163-236 | the reason of a refusal is the first of the named nodes that is not there |
| StructureImportService.BulkStructure.ImportFromExcel | services/org-service/src/org-structure/bulk-structure.service.ts:43-127 | refuses sheets without rows or with more than 500; otherwise every row of the sheet with a departamento is reported, exactly when its upserts were cut short, or found afterwards under its own trimmed cells, and the counters are those of the import on values |
| StructureImportService.BulkStructure.UpsertDepartment | services/org-service/src/org-structure/bulk-structure.service.ts:343-357 | finds or inserts by trimmed name, as on values |
| StructureImportService.BulkStructure.UpsertArea | services/org-service/src/org-structure/bulk-structure.service.ts:359-379 | as above, within a departamento |
| StructureImportService.BulkStructure.UpsertPosition | services/org-service/src/org-structure/bulk-structure.service.ts:381-428 | as above, within an area or directly under a departamento |
| StructureImportService.BulkStructure.ResolveStructure | services/org-service/src/org-structure/bulk-structure.service.ts:129-185 | answers every item exactly once and in order, each as a plain scan would, or refuses more than 500 items |
| TypologyTransition.DocumentService.CreateNewVersion | services/document-service/src/document-upload/document-upload.service.ts:297-439 | refuses an unknown typology, a bad file, and exactly those given versions that are not one increment above a filled old one; succeeds if no call fails; for every choice of failing, lost or interrupted write the documents end at a stage of this transition and are otherwise untouched, the new one declaring the trimmed request or else the old values under the old code; no two ACTIVE documents ever share a code; a finished new version has its file, except exactly if the write recording it was not acknowledged and the service then removed the file |
| TypologyTransition.DocumentService.RunTransition | services/document-service/src/document-upload/document-upload.service.ts:347-430 | the collection only ever passes through the listed stages of this transition |
| TypologyTransition.DocumentService.RestoreOldActive | services/document-service/src/document-upload/document-upload.service.ts:234-246 | the restore leaves the old version ACTIVE without a marker and no new document, or changes nothing |
| TypologyTransition.DocumentService.RollbackFailedVersionWrite | services/document-service/src/document-upload/document-upload.service.ts:262-290 | the old version is restored only once the new one is gone |
| TypologyTransition.DocumentService.ReconcileOne | services/document-service/src/typologies/typologies.service.ts:198-276 | one step of the sweep over any collection: every transition whose code no third document takes keeps leading to the same end, however the step fails and whether or not the document swept can be restored; an undisturbed step removes such a marker |
| TypologyTransition.DocumentService.Reconcile | services/document-service/src/typologies/typologies.service.ts:195-276 | a sweep over any collection keeps every such transition on its way, an undisturbed one settles them all, even when other documents stay stuck; a collection in which everything can be restored ends repaired |
| TypologyTransition.DocumentService.Recover | services/document-service/src/typologies/typologies.service.ts:195-276 | any number of interrupted sweeps followed by one complete sweep settles every such transition, leaves every stuck document whose code another one has taken as it is, and never removes a document that has a file or was deleted by a user |
| TypologyPair.SettlingKeepsTaken | services/document-service/src/typologies/typologies.service.ts:212-252 | settling a document either is refused by the unique index or leaves every stuck document whose code is taken as it is |
| TypologyPair.CreationCanTake | services/document-service/src/typologies/typologies.service.ts:348-403 | a creation can take the code of a typology whose transition died before its new version was inserted |
| TypologyTransition.DocumentService.TransitionThenRecover | services/document-service/src/document-upload/document-upload.service.ts:357-439 | if no third document takes the code: whatever fails and wherever the process dies, recovery ends with the old version ACTIVE and no new document, or the old one ARCHIVED and the new one ACTIVE with its file, no marker in either; the two are never ACTIVE together |
| TypologyTransition.FileCanBeLost | services/document-service/src/document-upload/document-upload.service.ts:413-420 | a script of call outcomes after which recovery keeps a new version whose file the service itself removed |
| TypologyPair.StagesLeadOn | services/document-service/src/document-upload/document-upload.service.ts:347-430 | from every stage before the file is stored recovery leads back, from every later one forward, whatever else the collection holds |
| TypologyPair.RemovingKeepsPair | services/document-service/src/typologies/typologies.service.ts:236-243 | removing a half-written version, its own or another one, takes no other pair off its way |
| TypologyPair.SettlingKeepsPair | services/document-service/src/typologies/typologies.service.ts:212-252 | clearing or restoring any document takes no pair off its way and brings its own to its end |
| TypologyPair.SettlingIsFree | services/document-service/src/typologies/typologies.service.ts:244-250 | the write that settles such a pair is never refused by the unique index |
| TypologyTransition.EndingsAreSettled | services/document-service/src/typologies/typologies.service.ts:195-276 | for the whole collection repaired: the two endings differ, old version unchanged and no new document, or old ARCHIVED and new ACTIVE with its file; no marker in either |
| TypologyTransition.StageIsSound | services/document-service/src/document-upload/document-upload.service.ts:347-430 | if every interrupted transition of the collection can be restored, that stays so at every stage; recovery of the whole collection goes back from every stage before the file is stored and forward from every later one |
| TypologyStore.MarkingKeeps | services/document-service/src/document-upload/document-upload.service.ts:347-360 | archiving with the marker changes nothing about what the collection stands for |
| TypologyStore.DraftKeeps | services/document-service/src/document-upload/document-upload.service.ts:362-395 | inserting the new ACTIVE document collides with nothing and is still undone by recovery |
| TypologyStore.FileKeeps | services/document-service/src/document-upload/document-upload.service.ts:406-430 | storing the file turns recovery from going back to going forward |
| TypologyStore.RestoringKeeps | services/document-service/src/typologies/typologies.service.ts:244-250 | once the half-written successor is gone, restoring the old version collides with nothing |
| Versions.VersionsEqual | services/document-service/src/typologies/typologies.service.ts:72-91 | the padded, zero-stripped text comparison decides equality of the zero-padded numbers, or of the trimmed texts when either is not a dotted number |
| Versions.IsExactlyOneIncrement | services/document-service/src/document-upload/document-upload.service.ts:22-50 | the padding loops decide whether the first difference is +1 with zeros after it |
| Versions.ParseExactly | services/document-service/src/typologies/typologies.service.ts:43-51 | the texts with numbers are exactly the numerals joined by dots, perhaps behind one v or V, and the numbers are those of the numerals |
| Versions.LeadingVIsIgnored | services/document-service/src/typologies/typologies.service.ts:72-91 | a leading v or V makes no difference to equality |
| Versions.SameUpToZeros | services/document-service/src/typologies/typologies.service.ts:72-91 | two numbered versions are equal exactly when one continues the other with zeros only |
| Versions.IncrementsExactly | services/document-service/src/document-upload/document-upload.service.ts:22-50 | the accepted increments of a version are, up to trailing zeros, exactly those that count one segment up by one and cut off what follows |
| Versions.SameVersionIsEquivalence | services/document-service/src/typologies/typologies.service.ts:72-91 | version equality is reflexive, symmetric and transitive on all texts |
| Versions.BumpRespectsSameVersion | services/document-service/src/document-upload/document-upload.service.ts:22-50 | on trimmed texts the increment test gives the same answer for any way of writing either version |
| Versions.BumpOnAnyTexts | services/document-service/src/typologies/typologies.service.ts:23-61 | on any texts, a bump is accepted exactly when both are trimmed and the trimmed texts are a bump |
| Versions.BumpRespectsSameVersionExactly | services/document-service/src/document-upload/document-upload.service.ts:22-50 | rewriting either version as any equal text keeps the answer exactly when the new texts are trimmed or the answer was no |
| Versions.ChainIncreases | services/document-service/src/document-upload/document-upload.service.ts:22-50 | along accepted increments, of any length and size, the zero-padded segments strictly increase lexicographically |
| Versions.ChainNeverRevisits | services/document-service/src/document-upload/document-upload.service.ts:22-50 | no chain of accepted increments comes back to an equal version |
| Extraction.TypologyDocument.ApplyExtractedMetadata | services/document-service/src/typologies/typologies.service.ts:518-556 | stores the trimmed texts; with complete declared data the status is COMPLETED or, if some non-blank text contradicts its field, DISCREPANCY with exactly the contradicting fields, in order, each with both texts; otherwise it asks for confirmation; nothing else changes |
| Extraction.TypologyDocument.ResolveDiscrepancy | services/document-service/src/typologies/typologies.service.ts:651-720 | each declared field becomes the one that the action chooses, the status CONFIRMED, the typology ACTIVE exactly with complete data; a refused resolution says why and changes nothing |
| Extraction.TypologyDocument.ClaimRetry | services/document-service/src/document-upload/document-upload.service.ts:556-580 | claims exactly a failed document or one stuck for over 15 minutes, in one atomic update |
| Extraction.ResolutionIsSettled | services/document-service/src/typologies/typologies.service.ts:662-705 | whenever a resolution succeeds and leaves complete data, applying the same extraction again yields COMPLETED without discrepancies |
| Extraction.KeepFailsOnDiscrepancy | services/document-service/src/typologies/typologies.service.ts:681-700 | keeping the declared data of a document unchanged since a discrepancy was found always fails |
| Extraction.ResolveSucceedsExactly | services/document-service/src/typologies/typologies.service.ts:651-720 | a resolution succeeds exactly when one is pending, the code is free, and adopted data is used or every extracted field agrees with the declared one |
| Extraction.AdoptKeepsComplete | services/document-service/src/typologies/typologies.service.ts:662-675 | adopting never turns complete data incomplete, in whatever state the extraction is adopted |
| Extraction.ClaimsAreFarApart | services/document-service/src/document-upload/document-upload.service.ts:553-580 | two retries that both get through, with no failure written in between, are more than 15 minutes apart if the last start written before the second is not earlier than the first retry's |
| Extraction.NextClaimIsFarExactly | services/document-service/src/document-upload/document-upload.service.ts:553-580 | after a retry that got through, with no failure since, every further one has to wait for more than 15 minutes if and only if the document cannot be retried at all or its start is not earlier than the retry's |
| Extraction.StampIsLast | services/document-service/src/document-upload/document-upload.service.ts:553-580 | that start is the stamp of the last retry or upload which wrote one |
| Extraction.InOrderIsFarApart | services/document-service/src/document-upload/document-upload.service.ts:553-580 | so the 15 minutes hold if each upload in between is stamped after the first retry |
| Extraction.SlowUploadLetsBothThrough | services/document-service/src/document-upload/document-upload.service.ts:148-158 | an upload that takes its stamp before a retry and saves after it lets a second retry through after any shorter time, down to none |
| Extraction.OneRacerWins | services/document-service/src/document-upload/document-upload.service.ts:553-606 | of any number of racing retries at most one gets through |
| AuthTokensSafety.ExactlyOneFate | services/auth-service/src/auth/auth.service.ts:228-340 | in every reachable interleaving every issued refresh token is in exactly one of live, consumed, expired and revoked |
| AuthTokensSafety.FateIsFinal | services/auth-service/src/auth/auth.service.ts:327-337 | a token that is no longer live keeps its fate under every continuation; extending keys never brings one back |
| AuthTokensSafety.SpentAtMostOnce | services/auth-service/src/auth/auth.service.ts:244-252 | under any interleaving of refreshes and exits at most one token is ever issued in exchange for a given one, and that one is consumed |
| AuthTokensSafety.ChainKeepsScope | services/auth-service/src/auth/auth.service.ts:311-319 | along every chain of refreshes subject and company stay the same |
| AuthTokensSafety.ScopesStayApart | services/auth-service/src/auth/auth.service.ts:315-319 | no token carries both a company and the super-admin claim, and leaving a company returns to the same user without company |
| AuthTokensConservation.SessionsAreGranted | services/auth-service/src/auth/auth.service.ts:469-541 | over any run the usable tokens plus the requests that may still issue one grow by at most the logins and company switches: refreshes and exits never multiply sessions |
| AuthTokenService.TokenService.Login | services/auth-service/src/auth/auth.service.ts:200-222 | issues a global pair with the user's super-admin claim exactly when the user is known and has some scope; otherwise says why and changes nothing |
| AuthTokenService.TokenService.SwitchCompany | services/auth-service/src/auth/auth.service.ts:451-606 | issues a pair for the company without the super-admin claim exactly for an active credential that is a member of an active company, with permissions readable, and otherwise says why; a context saved earlier is never overwritten, and no other key changes |
| AuthTokenService.TokenService.Refresh | services/auth-service/src/auth/auth.service.ts:228-340 | succeeds exactly for an accepted token of an active user with some scope who, for a company token, is a member of that active company with readable permissions; the new token has the same subject and company; a company refresh renews the saved context and the token it names; an accepted token is spent in any case; a refusal says why; the steps taken are a run of the interleaved model |
| AuthTokenService.TokenService.ExitCompany | services/auth-service/src/auth/auth.service.ts:469-541 | succeeds exactly when both the presented and the saved token are live and different and the user still has scope; spends both for a global token of the same user and changes no other key; the saved context is gone either way; a refusal says why |
| AuthTokenService.TokenService.RevokeAllRefreshTokens | services/auth-service/src/auth/auth.service.ts:360-366 | given what SCAN promises, no refresh key of the user is left, every other key is untouched, and every token that was live is revoked |
| Lockout.LoginGuard.Login | services/auth-service/src/auth/auth.service.ts:169-191 | while locked nothing is counted; the right password clears counter and lock; a wrong one counts on for 24 hours and locks for 5, 15 or 60 minutes from 5, 10 or 15 failures on; inactive credentials change nothing |
| Lockout.LockForIsDuration | services/auth-service/src/auth/auth.service.ts:37-43 | the reverse search yields 5, 15 or 60 minutes from 5, 10 or 15 failures and nothing below |
| Lockout.HighestStageWins | services/auth-service/src/auth/auth.service.ts:722-724 | the lock is that of a stage reached, and no stage reached is longer |
| Lockout.FailuresTakeTime | services/auth-service/src/auth/auth.service.ts:718-744 | for sequential logins, a counter that reads n spans at least the sum of the locks after 5, ..., n-1 failures |
| Lockout.LeastSpanIs | services/auth-service/src/auth/auth.service.ts:37-43 | that sum in closed form |
| Lockout.GuessesAreFew | services/auth-service/src/auth/auth.service.ts:718-744 | so at most 15 + k passwords are rejected in less than 160 + 60k minutes |
| Lockout.BoundIsReached | services/auth-service/src/auth/auth.service.ts:718-744 | for every n some run reaches the bound exactly |
| OrgPages.ReturnsListingExactly | services/org-service/src/orgs/orgs.service.ts:126-177 | for any requested limit and any ties, following the cursors stops with every matching row exactly once, in order, if and only if each page that is followed by another ends on a row created at a whole millisecond |
| OrgPages.WholeTableReturnsListing | services/org-service/src/orgs/orgs.service.ts:29-31 | in particular always when no timestamp has microseconds |
| OrgPages.MicrosecondsRepeat | services/org-service/src/orgs/orgs.service.ts:29-31 | with microseconds the walk may never stop: a two-row table whose first row is returned for ever |
| OrgPages.FoundIsSuffix | services/org-service/src/orgs/orgs.service.ts:160-165 | what a request selects and sorts is the rest of the full listing from the cursor on |
| OrgPages.PageExactly | services/org-service/src/orgs/orgs.service.ts:126-177 | a page holds the rows of the listing behind the cursor, 20 or as many as asked for between 1 and 100; hasMore and the next cursor are there exactly if rows are left, and the cursor names the last row by its id and whole millisecond |
| OrgPages.ListingHasMatches | services/org-service/src/orgs/orgs.service.ts:145-158 | the listing holds exactly the rows of the table that match the filter |
| OrgPages.ListingIsStrict | services/org-service/src/orgs/orgs.service.ts:136-142 | the listing is strictly ordered by creation time and id |
| Cidr.Ipv4ToUint32 | packages/common/src/guards/internal.guard.ts:17-30 | the shift-and-or loop yields the base-256 value of four octets of at most 255, and nothing for any other text |
| Cidr.AddressExactly | packages/common/src/guards/internal.guard.ts:17-30 | the texts with an address are exactly four numerals of at most 255 joined by dots |
| Cidr.MaskIsPrefix | packages/common/src/guards/internal.guard.ts:56-57 | for every prefix 0..32 the masked words are equal exactly when the addresses agree after division by 2^(32-p) (prefix matching, section 3.1 of RFC 4632) |
| Cidr.LongerPrefixIsSubset | packages/common/src/guards/internal.guard.ts:56-57 | what matches a longer prefix of the same base matches every shorter one |
| Cidr.ParsePrint | packages/common/src/guards/internal.guard.ts:17-30 | parsing the dotted quad of any 32-bit value gives it back |
| Cidr.ContainsIsPrefixMatch | packages/common/src/guards/internal.guard.ts:37-58 | a block in text form contains an address, plain or behind an IPv4-mapped prefix in small or capital letters, exactly when they agree above the prefix and the prefix is between 0 and 32 |
| Cidr.BareIsExact | packages/common/src/guards/internal.guard.ts:48-58 | an address without a prefix matches itself alone |
| Cidr.LoopbackAliases | packages/common/src/guards/internal.guard.ts:41-44 | the IPv6 loopback contains itself and the IPv4 one, which is also contained in its own text |
| Cidr.LiteralIsExact | packages/common/src/guards/internal.guard.ts:46 | any other block without a dot contains the very same text only |
| Cidr.MalformedMatchesNothing | packages/common/src/guards/internal.guard.ts:48-54 | a range or address that is no dotted quad, or a prefix that is no number from 0 to 32, matches nothing |
| Cidr.NormalizedExactly | packages/common/src/guards/internal.guard.ts:38-39 | exactly one IPv4-mapped prefix, in small or capital letters, is dropped |

## Left out

- AdminCycleShift.ShiftPassesExactly: in which order the database comes across the rows is an input; how storage and statistics lead to an order is not modelled.
- Restores and bulk upserts in the lock protocol: they write without locking the parent, so orphan freedom, deadlock freedom and the lease guarantee are stated for create, remove and resolve transactions; the restore of a department-level cargo has its exact condition.
- Lock protocol details: organization filters and name-conflict checks appear as rollbacks that may happen anywhere, unlocked pre-reads are not modelled, nor are the key-share locks that a foreign-key check takes on insert; interleavings are modelled on values, not in place.
- StructureProgress.NoRunDeadlocks: covers the locks on structure rows; the sweep inside a resolving transaction also takes row locks on expired leases, and waits or deadlocks between sweeps on lease rows, which the database breaks by failing one sweep back to its savepoint, are not modelled.
- StructureLeases.NoDanglingReference: covers references persisted by callers of resolve-by-id within P; the typology bulk import resolves by name and takes no lease, and a caller that persists later is outside the bound.
- StructureImportService.BulkStructure.ImportFromExcel: the workbook is a list of cell rows, descriptions are not kept, a failing database is a given number of upserts per row that succeed, and other writers of the tables do not run in between.
- StructureImport.ParsesExactly: cell texts are given; how a workbook yields them is not modelled.
- TypologyTransition.DocumentService.CreateNewVersion: starts from an ACTIVE, complete typology with the unique index on organization and code in place; concurrent calls on one typology, soft deletion during a transition, and several instances sweeping at once are not modelled.
- TypologyTransition.DocumentService.Recover: a transition is settled as long as no third document is ACTIVE under its code, or would be restored to it, and none marks its documents for removal; a typology whose code another document has taken stays stuck at every startup, and updates or soft deletions between two startups that would change this are not modelled.
- TypologyTransition.DocumentService.TransitionThenRecover: the stored file is not promised after an unacknowledged write recorded it and the service removed it as unreferenced; the documents are still in one of the two states.
- TypologyTransition.DocumentService.RunTransition: file validation is one yes-or-no input, file contents and the duplicate-code message are not modelled.
- Extraction.ResolveSucceedsExactly: the name normalisation is an unspecified function, the uniqueness check of the code is one yes-or-no input.
- Extraction.ClaimsAreFarApart: a FAILED status written in between lets a retry through at once, as intended, and is excluded; an upload is placed among the events where it saves, and carries the time it took before.
- AuthTokenService.TokenService.Refresh: requests on the class run one after another with the clock standing still; interleavings and time are covered by AuthTokens. Answers of other services, the permission list of the claims, the cached fallback answers and token signatures are inputs.
- AuthTokenService.TokenService.RevokeAllRefreshTokens: the marker that blocks access tokens of a revoked super-admin, and tokens issued while the scan runs, are not covered.
- AuthTokenService.TokenService.SwitchCompany: reading the cookie and the access token belongs to the controller and is an input.
- Lockout.FailuresTakeTime: logins on one credential one after another; the counter and the lock are updated without failures. Concurrent logins carry no such bound in the code.
- OrgPages.ReturnsListingExactly: the table does not change during a walk; the text form of cursors and the refusal of malformed ones are not modelled, and the filter is an arbitrary predicate.
- Cidr.ContainsIsPrefixMatch: how a prefix text is read as a number is an unspecified function; IPv6 ranges other than literal equality do not exist in the code either.
- The approval phase of a workflow before the review cycle: workflows enter the model in any status without an active cycle.
- Notes, attachments, timeline, notifications, audit events, metrics and event topics: effects without influence on the modelled state, except that an emission may fail.
- Password hashing, password reset, JWT signing and key rotation, the circuit breaker, malware scanning, search, and object storage contents.
- Controllers, migrations, seeders and configuration.
