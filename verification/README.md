# Verified models of Open Faith Map

Dafny models of the parts of Open Faith Map where several steps, tables or transactions have to agree, with proofs that they do.

| files | what they model |
|---|---|
| `Paths.dfy`, `Closure.dfy`, `RecursiveWalk.dfy` | units and edges of one directory graph, the closure the edges imply, and the SQL statements that maintain it, with their recursive queries round by round |
| `GraphTables.dfy` | the edge and closure tables changed in place: attach, detach, rebuild, verify |
| `GraphRuns.dfy`, `ConcurrentChanges.dfy`, `LoneTransactions.dfy` | sequences of transactions, interleavings of transactions that see their own uncommitted rows and contend for the per-graph lock, and what one comes to that meets no other |
| `Directory.dfy`, `MoveRuns.dfy`, `DirectoryService.dfy`, `MoveAnswers.dfy` | units, deletion, and the resumable move job under faults, crashes, resumes and overlapping calls; what its answers mean |
| `DeletionRace.dfy` | deletion interleaved with the transactions that put units under others |
| `Pdp.dfy`, `Authz.dfy`, `AuthorityLaws.dfy` | the policy decision point, the tables and queries that feed it, and what each change of the tables gives or takes |
| `MoveAuthority.dfy`, `MergePersons.dfy` | what moving a unit and merging two persons do to authority |
| `Documents.dfy`, `ContentStore.dfy`, `ContentService.dfy` | the document life cycle, publish-on-read, and the revision store |
| `TransitionRaces.dfy` | transitions whose read and write are separate, in overlapping calls |
| `PublicPaths.dfy` | printing and resolving hierarchical page paths |
| `SyncJob.dfy`, `SyncSteps.dfy`, `SyncOrder.dfy`, `SyncOutcome.dfy`, `SyncService.dfy`, `SlugCodes.dfy` | the jurisdiction sync: its fixpoint, what each turn adds, when the order of turns matters, what a run leaves in the tables, its loops, its codes |
| `Options.dfy` | optional values |

`dafny verify dfyconfig.toml` checks everything.

Tables are maps and sets; a transaction is atomic except in `ConcurrentChanges.dfy` and `DeletionRace.dfy`, where its statements interleave with those of others. Ids the database mints are parameters required to be new. Times, store faults and the answers of other modules are parameters. Where Go ranges over a map, the model takes the elements in an order of nobody's choosing, so what is proved holds for every order; `SyncOrder.OrderMattersIff` says exactly when the order of the sync's turns shows in its result.

## Where code and comments disagree

The models follow the code.

- `internal/content/application/service.go:393-394` says publishing never touches publish_at; it clears it (`internal/content/adapters/queries/content.sql`, UpdateDocumentState), and the model does too.
- Pages are said to nest up to three levels, and the resolver takes three segments, but the depth check admits three ancestors and so four levels: `PublicPaths.DepthAllowedIff`, `PublicPaths.ThreeAncestorsAreAdmitted`.
- VerifyClosure's comment expects drift to show transiently. Its query reads one committed state, and every committed state is exact (`ConcurrentChanges.EveryCommittedStateIsSound`).
- The merge treats an expired row of the survivor as making the duplicate's row redundant, so authority can be lost: `MergePersons.MergedKeys` and `MergePersons.MergedAuthority` have the exact conditions, `MergePersons.ExpiredRowShadows` an example.
- currentParent is described as the unit's actual parent; for a deleted unit whose own parents are deleted it can name a unit that never was: `Directory.CurrentParentIsEdgeIff`, `MoveRuns.DeletedUnitNamesNonParent`.
- A deleted unit is meant to have no live child, and the check is repeated inside the deleting transaction. Without the graph's lock that does not suffice: `DeletionRace.UncheckedDeleteOrphans`; with the lock taken first it would: `DeletionRace.LockFirstLeavesNoOrphans`.
- A move is meant to exchange one parent for another. Two overlapping calls on one unit can leave it under two (`MoveRuns.RacedStartKeepsAParent`). `MoveRuns.MoveExchangesIff` says exactly when a VERIFIED job exchanged parents; its old parent is still one when it begins unless another move of the unit was begun since the call looked for a live job (`MoveRuns.UndisturbedStartIsCurrent`).
- `internal/content/domain/content.go:164-165` says an UNLISTED document is excluded from listings. Only the sitemap and the translations leave it out; the feed's query and the menus include it: `Documents.FoundAllOver`.
- published_at is said never to be overwritten, and the transition table to be fixed. Each call decides by a row it read before its transaction, so overlapping calls can move the stamp and leave the table: `TransitionRaces.RacedPublishMovesStamp`, `TransitionRaces.RacedFlipLeavesTable`; `TransitionRaces.CarryOutIsAtOnceIff` has the exact condition.
- A sync code is meant to identify its node. `SlugCodes.CodesClashIff` says exactly when it does not; for ids without hyphens it always does (`SlugCodes.HyphenFreeCodesAreApart`).
- A failed sync node is meant to be retried. If its unit was committed and only the profile or the CREATED mark failed, every retry meets the unit's own code, as long as the node keeps that code: `SyncJob.TakenUpAgainIff`, `SyncJob.OrphanBlocksForGood`. A rename at the source may change the code, and then that unit blocks nothing.

## Model

| member | source | states |
|---|---|---|
| Paths.GuardIsExact | internal/directory/application/service.go:203-210 | The cycle guard is exact: a new edge closes a cycle if and only if its child already reaches its parent (or is it). |
| Paths.SplitAtEdge | internal/directory/adapters/queries/directory.sql:108-116 | Any path through the new edge splits into a path to its parent and a path from its child that use only the old edges. |
| Paths.AcyclicPathBounded | internal/directory/adapters/queries/directory.sql:178-193 | Paths of an acyclic graph are no longer than its node count, which is why every recursive query over it ends. |
| Closure.ExactIsUnique | internal/directory/adapters/queries/directory.sql:178-193 | The rows an edge set implies (one per reachable pair, at shortest depth) are unique. |
| Closure.AttachIsExact | internal/directory/adapters/queries/directory.sql:103-116 | Seeding self rows and adding anc*(parent) x desc*(child) at the lesser depth turns the exact closure of the old edges into the exact closure of the enlarged ones, for any edge. |
| Closure.PathsAcrossEdge | internal/directory/adapters/queries/directory.sql:118-132 | Every path that takes the detached edge lies in the deleted slice. |
| Closure.OutsideSlice | internal/directory/adapters/queries/directory.sql:118-132 | Outside the slice the old rows are already right for the remaining edges. |
| Closure.PathIsProposed | internal/directory/adapters/queries/directory.sql:134-163 | Every remaining path across the slice is a walk inside anc*(parent), one edge out of it, and a surviving row: re-derivation proposes a depth no greater than its length. |
| Closure.ProposedIsPath | internal/directory/adapters/queries/directory.sql:134-163 | Everything re-derivation proposes is a real remaining path of that length. |
| Closure.DetachIsExact | internal/directory/adapters/repository.go:269-282 | Delete slice, re-derive slice, prune self rows leaves exactly the reachability and shortest depths of the remaining edges, alternate multi-parent paths included. |
| RecursiveWalk.RoundHasWalk | internal/directory/adapters/queries/directory.sql:134-163 | Every entry of the recursive query's working table is the end of a walk of that round's length. |
| RecursiveWalk.WalkIsInRound | internal/directory/adapters/queries/directory.sql:134-163 | Every walk appears in the round of its length. |
| RecursiveWalk.LastRound | internal/directory/adapters/queries/directory.sql:134-163 | Over an acyclic graph the rounds run dry. |
| RecursiveWalk.DryIsRederived | internal/directory/adapters/queries/directory.sql:134-163 | Once dry, the least joined depth per pair is exactly the set of rows re-derivation must insert. |
| RecursiveWalk.RoundIsReach | internal/directory/adapters/queries/directory.sql:178-193 | Round n of the rebuild query lists exactly the pairs n edges apart. |
| RecursiveWalk.DryIsExact | internal/directory/adapters/queries/directory.sql:178-193 | The least depth over all rounds of the rebuild query is the exact closure of the edges. |
| GraphTables.Tables.ClosureHasPath | internal/directory/adapters/repository.go:427-434 | The stored rows answer reachability for units with an edge. |
| GraphTables.Tables.SeedClosureSelfRows | internal/directory/adapters/queries/directory.sql:103-106 | Both self rows are there afterwards, every row that was there keeps its depth, and over an exact closure all rows are shortest paths. |
| GraphTables.Tables.ExtendClosureForEdge | internal/directory/adapters/repository.go:258-267 | The row-by-row upsert, in any order, leaves the join's rows with the lesser depth. |
| GraphTables.Tables.DeleteClosureSlice | internal/directory/adapters/queries/directory.sql:118-132 | Over the exact closure of the edges as they were, exactly the pairs with a path up to the edge and one down from it lose their row; every row left is already shortest for the remaining edges. |
| GraphTables.Tables.RederiveClosureSlice | internal/directory/adapters/queries/directory.sql:134-163 | The rounds of the recursive walk insert exactly the least proposed depth of each pair, and no key twice. |
| GraphTables.Tables.PruneClosureSelfRows | internal/directory/adapters/queries/directory.sql:165-173 | Only the self row of an endpoint without edges goes; rows that were right for the units with an edge and the two endpoints become exact. |
| GraphTables.Tables.ShrinkClosureForEdge | internal/directory/adapters/repository.go:269-282 | After the edge row is gone, the three steps leave the exact closure of the remaining edges. |
| GraphTables.Tables.AttachFresh | internal/directory/application/service.go:138-177 | For a freshly minted child the tables stay acyclic and exact with no guard, although the closure is written before the edge. |
| GraphTables.Tables.AddEdge | internal/directory/application/service.go:179-223 | Refused as a cycle exactly when the child reaches the parent, refused as existing exactly when the edge is stored, else added; the closure is exact in every case. |
| GraphTables.Tables.RemoveEdge | internal/directory/application/service.go:225-248 | The edge goes and the closure is exact; an absent edge leaves edges and rows untouched. |
| GraphTables.Tables.RebuildClosure | internal/directory/application/service.go:434-462 | Whatever the closure held, it becomes the exact closure of the stored edges. |
| GraphTables.Tables.VerifyClosure | internal/directory/application/service.go:464-491 | Missing and extra are both zero exactly when the stored closure is exact. |
| GraphTables.NoDriftIsExact | internal/directory/adapters/queries/directory.sql:195-223 | Two row sets without missing or extra rows are equal, and conversely. |
| GraphRuns.ChangeKeepsSound | internal/directory/application/service.go:138-248 | Every transaction that decides by stored rows alone keeps the edges acyclic and the rows exact. |
| GraphRuns.ChangeEdges | internal/directory/application/service.go:138-248 | What each transaction does to the edges: a creation adds one, an attach adds one unless the child reaches the parent, a detach removes one. |
| GraphRuns.RunIsSound | internal/directory/application/service.go:434-491 | After every run of creates, attaches and detaches from the empty graph the incrementally kept rows are what a rebuild computes, and the graph is acyclic. |
| ConcurrentChanges.WroteShows | internal/directory/application/service.go:33-46 | A transaction's uncommitted row changes, laid over the committed rows, show what its statement left. |
| ConcurrentChanges.CommitIsChange | internal/directory/application/service.go:179-248 | Each commit publishes one whole change of the sequential system, or none. |
| ConcurrentChanges.StepKeepsInv | internal/directory/adapters/repository.go:219-230 | With the lock taken before the guard, every step of every transaction keeps the interleaving invariant. |
| ConcurrentChanges.EveryCommittedStateIsSound | internal/directory/adapters/repository.go:219-230 | For any number of interleaved transactions, rollbacks included, every committed state is acyclic with an exact closure. |
| ConcurrentChanges.EarlyGuardsCloseACycle | internal/directory/adapters/repository.go:219-230 | Why the order matters: with the guard before the lock there is a run of two attaches that commits a cycle. |
| LoneTransactions.AttachCommits | internal/directory/application/service.go:179-223 | In the code's order an attach that no other transaction meets can be carried through to its commit whenever it closes no cycle and its edge is not stored, and adds just that edge. |
| LoneTransactions.CreateCommits | internal/directory/application/service.go:138-177 | So can a creation for a newly minted child. |
| LoneTransactions.DetachCommits | internal/directory/application/service.go:225-248 | So can a detach, which removes just that edge, or changes nothing if it is not stored; the rows to re-insert always exist. |
| Directory.StepKeepsInv | internal/directory/application/service.go:286-423 | Unit creation, deletion, and every transaction, fault, crash and resume of every move job keep: job status tells the unit's parents, live units have live parents, the graph is acyclic. |
| Directory.RunKeepsInv | internal/directory/application/service.go:286-423 | The same over whole runs. |
| Directory.DrivenKeepsInv | internal/directory/application/service.go:377-423 | A whole call of runMoveSteps, with any faults, keeps the invariant. |
| Directory.NearestIsParent | internal/directory/adapters/queries/directory.sql:232-237 | With a live parent at hand, the first row of ListAncestors is a parent, not a farther ancestor. |
| Directory.CurrentParentIsEdgeIff | internal/directory/application/service.go:355-375 | currentParent names a stored edge if and only if the latest job is VERIFIED or some parent is not deleted. |
| Directory.CurrentParentIsParent | internal/directory/application/service.go:355-375 | So it does for every live unit but the root, after any job history. |
| MoveRuns.EveryLiveUnitReachesRoot | internal/core/application/service.go:319-395 | In every reachable state every live unit has a path of live units up to the root. |
| MoveRuns.StatusTellsParents | internal/directory/application/service.go:377-423 | The status of a unit's latest job tells which of the old and new edges exist; VERIFIED means parents = those at the start - old + new. The old edge of a PENDING job exists if it did when the job was inserted. |
| MoveRuns.MoveExchangesIff | internal/directory/application/service.go:286-423 | What a VERIFIED job did, exactly: it took one parent for one other if and only if, when the job was inserted, its old parent was a parent and its new one was not; the number of parents stayed the same if and only if just one of the two was a parent then. |
| MoveRuns.MoveUnderDescendantIsRefused | internal/directory/application/service.go:382-392 | The transaction of a move under the unit's own descendant changes nothing, and the driver has its refusal. |
| MoveRuns.RefusalStands | internal/directory/application/service.go:382-392 | Whatever else happens before the driver goes on, the refusal and the unit's parents stand. |
| MoveRuns.RefusedMoveFails | internal/directory/application/service.go:382-392 | Then the job is FAILED, with the parents it began with and no edge changed. |
| MoveRuns.VerificationPasses | internal/directory/application/service.go:407-420 | Without a store fault the verify phase turns a move down exactly when the new parent is deleted, which cannot be for a live unit. |
| MoveRuns.DriveOutcome | internal/directory/application/service.go:377-423 | How a fault-free drive ends from any status: VERIFIED if and only if the new edge can still be added, or was, and the new parent is not deleted, with exactly the two edges exchanged; a refused addition leaves every edge in place. |
| MoveRuns.ResumeFinishes | internal/directory/application/service.go:286-328 | Once the new edge is in, a fault-free resume drives a live unit's job to VERIFIED with its parents moved. |
| MoveRuns.DriveOnward | internal/directory/application/service.go:377-423 | A fault-free drive is a run of the directory: from a reachable state to a reachable state. |
| MoveRuns.UndisturbedStartIsCurrent | internal/directory/application/service.go:296-322 | A job is inserted with an old parent that is still a parent, unless another move of the unit was begun since this call looked for a live job. |
| MoveRuns.RacedStartKeepsAParent | internal/directory/application/service.go:296-322 | With two overlapping calls on one unit, a run in which the later job is VERIFIED and leaves the unit under two parents where it had one. |
| MoveRuns.DeletedUnitNamesNonParent | internal/directory/application/service.go:355-375 | A run after which currentParent of a deleted unit names a unit that at no point of the run was its parent. |
| DirectoryService.Service.CreateUnitWithEdge | internal/directory/application/service.go:138-177 | The unit and its edge appear together, or nothing does when the parent is missing. |
| DirectoryService.Service.HasChildren | internal/directory/application/service.go:105-110 | True exactly when some unit that is not deleted hangs below. |
| DirectoryService.Service.DeleteUnit | internal/core/application/service.go:319-356 | The four guards in order; on success only the unit's liveness changes. |
| DirectoryService.Service.AddEdge | internal/directory/application/service.go:179-223 | Self edge, missing unit, cycle, existing edge and success are told apart exactly; only success changes the edges, by one. |
| DirectoryService.Service.ListAncestors | internal/directory/adapters/queries/directory.sql:232-237 | Each strict ancestor that is not deleted, once, nearest first. |
| DirectoryService.Service.CurrentParent | internal/directory/application/service.go:355-375 | The target of the last move if that one is VERIFIED, else a nearest live ancestor, or none exactly when there is no live ancestor. |
| DirectoryService.Service.Move | internal/directory/application/service.go:286-328 | The root is refused; a move under way to another parent is a conflict, to the same parent it is resumed; the job that ran is of this unit to this parent and has ended; after a lost status write it is still under way; every refusal changes nothing. |
| DirectoryService.MoveAnswersRequest | internal/directory/application/service.go:296-327 | The same about the specification of Move. |
| DirectoryService.Service.RunMoveSteps | internal/directory/application/service.go:377-423 | Runs exactly the phases that have not landed, storing each outcome before the next phase; ends in an error exactly when a status write is lost. |
| DirectoryService.DriveEndsIff | internal/directory/application/service.go:377-423 | A drive leaves its job under way if and only if a status write is lost. |
| DirectoryService.Service.RunPhase | internal/directory/application/service.go:382-420 | One phase transaction, and the status written after it if that write succeeds. |
| DirectoryService.MoveKeepsInv | internal/directory/application/service.go:286-328 | Whatever a Move call answers, it keeps the directory invariant. |
| DirectoryService.AtomicStartKeepsInv | internal/directory/application/service.go:296-322 | A call with no other in between takes the steps of the state machine, look for a live job, read the history, read the graph if that does not tell, insert the job, and keeps the invariant. |
| MoveAnswers.MoveResumes | internal/directory/application/service.go:286-328 | A fault-free call for the target of a live unit's interrupted move runs that very job: VERIFIED, with the parents moved, if and only if its new edge is in or can still be added; else FAILED with the parents as they were. |
| MoveAnswers.MoveStarts | internal/directory/application/service.go:286-328 | A fault-free fresh move of a live unit is VERIFIED if and only if the new parent is not deleted and not below the unit; then it has taken one parent for the new one and changed no other edge, else no edge. |
| MoveAnswers.FaultFailsMove | internal/directory/application/service.go:377-423 | A store fault in the phase that is due fails the job with every edge in place. |
| MoveAnswers.LostWriteKeepsJobs | internal/directory/application/service.go:377-423 | When the first status write is lost the jobs stay as they were, for the next call to take up, and what the phase did to the edges stays done. |
| DeletionRace.CommitOrphansIff | internal/directory/application/service.go:112-177 | When a commit leaves a live unit under a deleted one: exactly when the parent is no longer live, or the deleted unit has a live child, as it commits. |
| DeletionRace.UncheckedDeleteOrphans | internal/directory/application/service.go:112-177 | In the code's order, where deletion takes no lock and creation looks at the parent before it takes it, a run commits a live unit under a deleted one, its only parent. |
| DeletionRace.StepKeepsInv | internal/directory/application/service.go:112-223 | With the lock taken before the check by all three kinds of transaction, every step keeps the check's answer good until its commit. |
| DeletionRace.LockFirstLeavesNoOrphans | internal/directory/application/service.go:112-223 | Then no interleaving ever commits a live unit under a deleted one. |
| DeletionRace.LoneTransactionCommits | internal/directory/application/service.go:112-223 | Nor does that order block anybody: any transaction whose check holds can lock, check and commit. |
| Pdp.Decide | internal/authz/domain/pdp.go:68-136 | The loop with memo, early exit and explain mode computes the memo-free specification, port errors included. |
| Pdp.AnswerMeans | internal/authz/domain/pdp.go:78-136 | An admin is allowed everything; anyone else is denied the four actions on the instance, whatever the grants; any other denial has the other reason. Reasons and citations come in explain mode only. An error is the port's, on a subtree grant with the action, asked no further than needed. |
| Pdp.VerdictIsFirst | internal/authz/domain/pdp.go:90-130 | Fast mode answers by the first grant that contributes or on which the port fails. |
| Pdp.ExplanationFails | internal/authz/domain/pdp.go:90-136 | Explain mode fails exactly on the first grant the port fails on. |
| Pdp.VerdictIsExists | internal/authz/domain/pdp.go:90-130 | Over a total port the verdict is: some grant contributes. |
| Pdp.FastAgreesWithExplain | internal/authz/domain/pdp.go:90-136 | For any port, when explain mode answers, fast mode gives the same verdict. |
| Pdp.ViaIsContributions | internal/authz/domain/pdp.go:90-136 | Via lists exactly the contributing grants, once each, in grant order. |
| Pdp.VerdictIsOrderFree | internal/authz/domain/pdp.go:90-130 | The verdict is the same under any reordering of the grants. |
| Pdp.MoreGrantsKeepAllow | internal/authz/domain/pdp.go:90-130 | No further grants turn an allow into a deny. |
| Pdp.ContributesIsReach | internal/authz/domain/pdp.go:90-130 | A grant contributes through the stored closure exactly when it reaches the unit over raw edges, edgeless units included. |
| Pdp.DecideMeansAuthorized | internal/authz/domain/pdp.go:68-136 | Decide over exact closures equals the specification over raw edges, in both modes. |
| MoveAuthority.AddOutside | internal/directory/application/service.go:286-294 | Adding an edge changes reachability only into its child's subtree. |
| MoveAuthority.RemoveOutside | internal/directory/application/service.go:286-294 | So does removing one. |
| MoveAuthority.RemoveKeeps | internal/directory/application/service.go:286-294 | Removing an edge leaves every path alone that does not run from above it to below it. |
| MoveAuthority.OneEdgeInPlace | internal/directory/application/service.go:286-294 | Add-before-remove: at every state of a job begun at one of the unit's parents one of its two edges is stored. |
| MoveAuthority.SwapKeepsReach | internal/directory/application/service.go:286-294 | While the new edge is in place, removing the old one costs nobody above the new parent anything. |
| MoveAuthority.StepKeepsReach | internal/directory/application/service.go:377-423 | Whatever the step, what a unit reaches it goes on reaching, unless a unit below it is moved away from below it. |
| MoveAuthority.SparingRunKeepsReach | internal/directory/application/service.go:286-294 | The same along whole runs, with any number of overlapping moves, faults, crashes, resumes, creations and deletions. |
| MoveAuthority.TargetsBelowSpare | internal/directory/application/service.go:286-328 | It is enough that every move, when begun, goes to a unit then below: overlapping moves cannot take each other's targets away. |
| MoveAuthority.MovesKeepAllow | internal/authz/domain/pdp.go:68-136 | What a subtree grant allows, Decide goes on allowing at every point of every such run, in both modes, over the exact closures of that moment. |
| MoveAuthority.RunOutsideKeepsAbove | internal/directory/application/service.go:286-294 | Along a whole run, who lies above a unit outside the moved subtrees never changes. |
| MoveAuthority.MovesKeepDecisionsOutside | internal/authz/domain/pdp.go:68-136 | Nor does Decide's answer about it, whatever the grants, over the exact closures of each moment. |
| Authz.GroupRows | internal/authz/adapters/repository.go:176-212 | The grouping loop yields one grant per assignment, each with all its role's permissions, in order of first appearance. |
| Authz.GrantsMeanTables | internal/authz/adapters/queries/authz.sql:70-80 | The grouped grants authorize exactly what the assignment, role and admin tables and the raw edges say. |
| Authz.ViaMeansTables | internal/authz/service.go:118-124 | Explain mode cites exactly the conferring assignments. |
| Authz.Service.DecideFor | internal/authz/service.go:264-279 | A decision allows exactly when the tables say so, whichever order the query lists its rows in; explained, it cites the assignments as stored, or gives the reason of the denial. What the tables say is the subject of AuthorityLaws. |
| Authz.Service.Require | internal/authz/service.go:82-106 | An API key narrows what its owner holds and never widens it. |
| AuthorityLaws.GrantAdds | internal/authz/adapters/queries/authz.sql:70-80 | What one more assignment gives, in full: its subject, and nobody else, may do its live role's actions, but for the four on the instance, on the target, or for a subtree of an authority-bearing graph on everything below it, until it expires or is revoked. |
| AuthorityLaws.NobodyMay | internal/authz/service.go:264-279 | Without assignments admins may do everything and others nothing. |
| AuthorityLaws.ExpiryEnds | internal/authz/adapters/queries/authz.sql:79-79 | An assignment with an expiry date counts as one without until then, and as none from then on. |
| AuthorityLaws.RevocationTakes | internal/authz/adapters/queries/authz.sql:78-78 | A revoked assignment is as good as none. |
| AuthorityLaws.RoleDeletionTakes | internal/authz/adapters/queries/authz.sql:74-74 | Deleting a role takes exactly what its assignments gave. |
| AuthorityLaws.SubtreeFlowsDown | internal/authz/domain/pdp.go:74-77 | What a subtree assignment confers on a unit it confers on every unit below. |
| AuthorityLaws.InstanceActionsAreAdmins | internal/authz/domain/pdp.go:72-74 | The four actions on the instance are for admins alone. |
| MergePersons.MergedRows | internal/authz/adapters/queries/authz.sql:121-136 | Row by row: the survivor takes what it lacks, the rest of the duplicate's rows are revoked, no other row changes. |
| MergePersons.MergeKeepsIndex | internal/authz/adapters/queries/authz.sql:121-136 | The unique index over unrevoked rows holds after a merge. |
| MergePersons.MergedKey | internal/authz/adapters/queries/authz.sql:121-136 | Key by key: after a merge the survivor has the keys it had and those live ones of the duplicate that it held no row for, not even an expired one. |
| MergePersons.MergedKeys | internal/authz/adapters/repository.go:263-276 | A merge never adds authority, and loses none if and only if no live key of the duplicate is shadowed by an expired row of the survivor. |
| MergePersons.Tables.CountRepointableRoleAssignments | internal/authz/adapters/repository.go:253-261 | The preview counts exactly the rows that would move and that would be revoked. |
| MergePersons.Tables.RepointRoleAssignments | internal/authz/adapters/repository.go:263-276 | Moved and revoked partition the duplicate's prior rows, and the table becomes the merged one. |
| MergePersons.Tables.PreviewRepointInstanceAdmin | internal/authz/adapters/repository.go:278-293 | Foretells what the repoint does. |
| MergePersons.Tables.RepointInstanceAdmin | internal/authz/adapters/repository.go:295-310 | The admin place moves, or is revoked as redundant; the survivor is an admin exactly when either was. |
| MergePersons.Tables.MergePersons | internal/core/application/service.go:705-788 | Both repoints as one change; the counts match the preview. |
| MergePersons.MergedAuthority | internal/core/application/service.go:653-788 | Exactly what the survivor may do afterwards, per action and unit: what it could, anything if the duplicate was an admin, and what a live key of the duplicate confers that the survivor held no row for. The duplicate may do nothing. |
| MergePersons.MergePreservesAuthority | internal/core/application/service.go:653-788 | So the survivor may do no more than either person could, and all of it unless a live key was shadowed. |
| MergePersons.MergeSparesOthers | internal/core/application/service.go:705-788 | Nobody else's authority changes. |
| MergePersons.ExpiryFreeIsUnshadowed | internal/authz/adapters/queries/authz.sql:121-136 | Without expiry dates nothing is shadowed, so authority is preserved outright. |
| MergePersons.ExpiredRowShadows | internal/authz/adapters/queries/authz.sql:121-136 | With them authority can be lost: concrete tables where the duplicate may act before the merge and the survivor may not after it. |
| Documents.AcceptedIff | internal/content/application/service.go:332-376 | Which actions are accepted, in terms of where visitors find the document (address, feed, menus, sitemap, translations): publish what is not found everywhere, unlist what is, revert what is or will be, schedule for a future date what is not and will not be. |
| Documents.RefusedBecause | internal/content/application/service.go:366-380 | Which refusal is given, by what visitors see and the date: an action not allowed; else a schedule without a date; else a schedule for a date not to come. |
| Documents.AcceptedPlaces | internal/content/application/service.go:660-777 | Where an accepted action puts the document at every time: publishing everywhere, unlisting everywhere but in the sitemap and the translations, reverting nowhere, scheduling everywhere from the date on and nowhere before. |
| Documents.FoundAllOver | internal/content/adapters/queries/content.sql:94-104 | The feed's query, the menu's check and the address's check agree at every time; the sitemap and the translations leave out exactly the UNLISTED rows among those. |
| Documents.LastAcceptedDecides | internal/content/application/service.go:356-396 | After any timeline of waits and actions, where visitors find the document at any time is settled by the last accepted action alone. |
| Documents.FirstPublicationStays | internal/content/adapters/repository.go:571-594 | published_at is stamped by the first publish, with its time, and by nothing else, and not moved by a later publish that reads the row it writes. |
| Documents.ActsAgree | internal/content/application/service.go:356-396 | An action is legal for the lazy row exactly when it is for the row a timer would have left. |
| Documents.PublishOnReadRefinesTimer | internal/content/domain/content.go:151-172 | Along every timeline of waits and actions, the places visitors find the document, its effective state, published pointer and refusals equal those of a model with a timer. |
| Documents.DueIsUnstamped | internal/content/domain/content.go:151-172 | Why publishedAt is excluded: a document that falls due by itself is public and unstamped until a later PUBLISH. |
| ContentStore.CutoffIsRank | internal/content/adapters/queries/content.sql:137-147 | A row is at or below the OFFSET cutoff exactly when at least that many rows are newer. |
| ContentStore.PruneKeepsFifty | internal/content/adapters/queries/content.sql:137-147 | After a publish or schedule a row of the document survives exactly when it is the draft or fewer than fifty rows are newer; other documents' rows all survive. |
| ContentStore.CheckpointIsNewest | internal/content/adapters/queries/content.sql:113-114 | The new checkpoint's number is above every number in use. |
| ContentStore.CheckpointIsNext | internal/content/adapters/queries/content.sql:113-114 | and it is one more than one of them. |
| ContentStore.ApplyKeepsOk | internal/content/adapters/repository.go:668-794 | Every operation keeps the revision store in order: draft and published rows exist and differ, the published row is the newest, publishAt is set iff SCHEDULED, no number is used twice. |
| ContentStore.RunKeepsOk | internal/content/adapters/repository.go:668-794 | The same in every reachable state, and the numbers ever given to a document are strictly increasing although old rows go. |
| ContentStore.PublicIsLastPromoted | internal/content/application/service.go:432-449 | Whenever a document is visible, visitors read the draft as it stood at the latest PUBLISH or SCHEDULE. |
| ContentStore.EditsAreInvisible | internal/content/application/service.go:471-573 | No save or restore changes what any visitor reads, at any time. |
| ContentStore.IsolationIff | migrations/0025_content_revisions.sql:74-84 | Saves stay invisible if and only if the published row is not the draft row; rows migrated as PUBLISHED point at their draft and do leak. |
| ContentStore.ReachedDraftsAreApart | internal/content/adapters/repository.go:384-441 | Every state reached through the service satisfies that condition. |
| ContentStore.ApplyKeepsKeys | internal/content/adapters/repository.go:393-413 | No two documents ever have one site, kind, locale and slug. |
| ContentStore.RestoreThenPublishShows | internal/content/application/service.go:544-573 | Restoring a stored revision and publishing shows visitors that revision's blocks again. |
| ContentStore.PutThenPublishShows | internal/content/application/service.go:471-524 | Saving acceptable blocks and publishing shows visitors those blocks, normalised. |
| ContentStore.PutIsStored | internal/content/application/service.go:516-520 | An accepted save replaces the blocks of the document's draft row, and nothing else. |
| ContentStore.InsertThenPublishShows | internal/content/adapters/repository.go:384-441 | A new document is seen by nobody, and published at once it shows no blocks. |
| ContentStore.InsertIsRefusedIff | internal/content/adapters/repository.go:393-413 | An insert changes nothing exactly when a stored document has that very site, kind, locale and slug. |
| ContentStore.TransitionSparesOthers | internal/content/adapters/repository.go:738-794 | A transition leaves every other document and its revisions alone. |
| ContentService.Service.InsertDocument | internal/content/adapters/repository.go:384-441 | Document, first revision and draft pointer in one step, or the slug conflict exactly when another document has the key. |
| ContentService.Service.NextRevisionNo | internal/content/adapters/queries/content.sql:113-114 | One more than the highest number in use, or 1 if there is none. |
| ContentService.Service.Cutoff | internal/content/adapters/queries/content.sql:142-147 | The row at the given offset in descending order of number, or none. |
| ContentService.Service.PruneCheckpointRevisions | internal/content/adapters/queries/content.sql:137-147 | Deletes exactly the prunable rows. |
| ContentService.Service.SnapshotAndPromote | internal/content/adapters/repository.go:738-794 | Snapshot, repoint, state flip and prune as one change. |
| ContentService.Service.TransitionDocument | internal/content/application/service.go:356-396 | Refused for exactly the specified reason with nothing changed, or carried out whole, by a call that no other transition of the document overlaps. |
| ContentService.Service.SaveDraftRevisionData | internal/content/adapters/repository.go:691-703 | Only the one revision's data changes. |
| ContentService.CheckBlocks | internal/content/application/service.go:488-514 | Accepts if and only if no position repeats, every type is active and all data pass, and returns the blocks with their data normalised; otherwise names the first offence. |
| ContentService.Service.PutBlocks | internal/content/application/service.go:471-524 | If and only if the blocks are acceptable the draft row holds them, normalised, afterwards; a refusal changes nothing. |
| ContentService.Service.RestoreRevision | internal/content/application/service.go:544-573 | A revision of this very document is copied into the draft, any other is refused with nothing changed. |
| ContentService.Service.GetPublicBlocks | internal/content/application/service.go:432-449 | Answers exactly when the document is visible. |
| TransitionRaces.StepKeepsInv | internal/content/application/service.go:356-396 | With the read and the writing transaction as separate steps of overlapping calls, every step keeps the store invariant: draft and published rows exist and differ, what is visible has a published row, publish_at is set iff SCHEDULED, revision numbers are unique. |
| TransitionRaces.RunKeepsInv | internal/content/application/service.go:356-396 | The same along every interleaving. |
| TransitionRaces.RacesShowLastPromoted | internal/content/application/service.go:432-449 | In every interleaving visitors read the draft as it stood at the last publish or schedule that was written. |
| TransitionRaces.CarryOutIsAtOnceIff | internal/content/application/service.go:356-396 | A decision written later does what the whole transition would do then if and only if it still stands (legal in the effective state, a schedule's date still to come, the first-publication stamp still due), or it is to unlist or revert what has been already. |
| TransitionRaces.UndisturbedStands | internal/content/application/service.go:356-396 | A decision stands while the document's effective state and stamp are as read and a schedule's date is to come, whatever is saved, restored or done to other documents. |
| TransitionRaces.RacedFlipLeavesTable | internal/content/application/service.go:337-354 | A run of two overlapping calls that takes a document from UNLISTED to DRAFT, which the transition table does not allow. |
| TransitionRaces.RacedPublishMovesStamp | internal/content/adapters/repository.go:571-594 | A run of two overlapping first publishes in which the second moves published_at. |
| PublicPaths.SegmentsAtSlash | internal/content/transport/public_service.go:109-118 | Splitting and dropping empty segments distributes over a slash. |
| PublicPaths.SegmentsOfJoin | internal/content/application/service.go:800-809 | Splitting undoes joining exactly for non-empty slash-free segments. |
| PublicPaths.AncestorsAreChain | internal/content/application/service.go:780-798 | The bounded chain is the real parent chain, root first, and is complete when shorter than three. |
| PublicPaths.HrefResolvesIff | internal/content/application/service.go:716-751 | A visible page is found under its own href if and only if it has at most two ancestors and all slugs concerned are non-empty and slash-free. |
| PublicPaths.ResolvedIsOwnHref | internal/content/application/service.go:716-751 | Any path that resolves spells exactly the href of the page returned. |
| PublicPaths.ReachableIffOwnHref | internal/content/application/service.go:716-751 | A page its own href does not find is found by no path. |
| PublicPaths.PathAfterAction | internal/content/application/service.go:716-751 | After an accepted action a page's own path leads to it at exactly the times the action made it public, if the page is in reach. |
| PublicPaths.DepthAllowedIff | internal/content/application/service.go:314-330 | The depth check admits exactly the parents with at most two ancestors of their own. |
| PublicPaths.NamesAtMostOne | migrations/0002_content.sql:71-72 | With the unique index, segments name at most one page. |
| PublicPaths.ThreeAncestorsAreAdmitted | internal/content/application/service.go:314-330 | The depth check admits a page with three ancestors, which no path then resolves. |
| PublicPaths.CheckParentDepth | internal/content/application/service.go:314-330 | Accepts exactly when the parent's whole chain of ancestors is at most two pages. |
| PublicPaths.ResolveAncestorChain | internal/content/application/service.go:780-798 | Append upward, then reverse in place: the bounded chain, root first. |
| PublicPaths.SwapEnds | internal/content/application/service.go:794-796 | The in-place swap loop reverses. |
| PublicPaths.BuildPublicHref | internal/content/application/service.go:800-809 | The locale and all slugs, joined. |
| PublicPaths.GetPublicDocumentByPath | internal/content/application/service.go:716-751 | Returns the visible page of that site and locale whose whole chain of slugs the segments spell, or nothing exactly when there is none. |
| PublicPaths.SplitPath | internal/content/transport/public_service.go:109-118 | The transport's loop keeps exactly the non-empty parts. |
| PublicPaths.FollowPath | internal/content/transport/public_service.go:109-128 | From raw path to page: a page's own path finds it exactly when it is in reach, and what is found is visible, of that site and locale, and has that path and its whole chain. |
| SyncJob.LeastExists | internal/congregationimport/application/jurisdictionsync.go:99-134 | There is exactly one least set of nodes closed under having a resolved parent. |
| SyncJob.LeftOverIsLargestStuck | internal/congregationimport/application/jurisdictionsync.go:99-134 | The nodes left over are the largest set whose members' parents are stuck, missing or failed: cycles and dangling parents stay unprocessed. |
| SyncJob.CreatedStays | internal/congregationimport/application/jurisdictionsync.go:199-213 | Once CREATED, a node keeps its unit and no later run calls CreateChildOrg for it. |
| SyncJob.TakenUpAgainIff | internal/congregationimport/application/jurisdictionsync.go:216-240 | A node whose unit was committed is taken up again by a later run exactly when the call failed over the profile or its row could not be marked CREATED. |
| SyncJob.BlockedNodeFails | internal/religion/application/service.go:114-137 | A node whose code a standing unit has fails, and nothing below it gets a turn. |
| SyncJob.OrphanBlocksForGood | internal/congregationimport/application/jurisdictionsync.go:199-240 | A node with a unit made but not recorded stays blocked, and the whole subtree under it, in every later run in which a unit has the code the node then gets: for as long as its own unit stands and the node keeps its code. A node renamed at its source may get another code and is not blocked then. |
| SyncJob.HyphenFreeIdsAreApart | internal/congregationimport/application/jurisdictionsync.go:278-291 | Hyphen-free ids that differ when lowered are enough for no two nodes of a run to share a code, whatever their names. |
| SyncJob.LaterRunGetsAsFar | internal/congregationimport/application/jurisdictionsync.go:181-197 | A later run over the same nodes deals with at least the nodes of the earlier one, however its calls go. |
| SyncJob.RerunCreatesNothing | internal/congregationimport/application/jurisdictionsync.go:199-240 | After full success a re-run calls nothing, creates nothing and changes no row. |
| SyncOrder.OrderMattersIff | internal/congregationimport/application/jurisdictionsync.go:99-134 | Exactly when the order of work matters: two runs of one given job can end with different units if and only if two of its nodes could each make a unit under one code, each with a line of nodes above it, from one whose parent has a unit already, that all make and record theirs under codes of their own. |
| SyncOrder.ClashIsMet | internal/congregationimport/application/jurisdictionsync.go:99-134 | If two nodes could, some run reaches a point where two nodes are ready at once for one code that is free. |
| SyncOrder.TwoEnds | migrations/0009_core_directory.sql:34-35 | From such a point on, whichever of the two is taken first gets a unit and the other never does: two ends with different units. |
| SyncOrder.TakenFirst | internal/congregationimport/application/jurisdictionsync.go:99-134 | Where no run ever meets such a point, any ready node can be taken first without changing the end. |
| SyncOrder.SyncIsConfluent | internal/congregationimport/application/jurisdictionsync.go:99-134 | Without such nodes, two runs of one given job, in whatever orders, leave the same table, the same units in the same places, the same counts and the same left-over nodes, and call CreateChildOrg for the same nodes. |
| SyncOrder.ApartIsUncontested | internal/congregationimport/application/jurisdictionsync.go:278-291 | So it is when no two nodes that would make a unit share a code. |
| SyncSteps.SameOutcome | internal/congregationimport/application/jurisdictionsync.go:99-134 | Which nodes lost their codes is all that the order can decide: two runs that agree on it leave everything the same. |
| SyncSteps.OrphanHoldsItsCode | internal/congregationimport/application/jurisdictionsync.go:227-240 | After a run, a unit made but not recorded holds its node's code, while the node is not CREATED. |
| SyncSteps.NoneLost | migrations/0009_core_directory.sql:34-35 | When no two nodes that would make a unit share a code, none loses its code to another. |
| SyncSteps.TakenByWhom | migrations/0009_core_directory.sql:34-35 | A code is taken exactly by a unit that stood before or by one the run has made. |
| SyncSteps.TalliesAddUp | internal/congregationimport/application/jurisdictionsync.go:99-134 | Created, skipped, failed and left over add up to the distinct external ids. |
| SyncOutcome.UnitStandsInPlace | internal/congregationimport/application/jurisdictionsync.go:181-197 | Every unit a run makes stands under its node's code: under the anchor if the node has no parent, else under the unit its parent's row names. |
| SyncOutcome.DoneIff | internal/congregationimport/application/jurisdictionsync.go:99-134 | A node gets its turn exactly when it has no parent or its parent is CREATED in the end. |
| SyncOutcome.CalledIff | internal/congregationimport/application/jurisdictionsync.go:199-230 | CreateChildOrg is called for exactly the nodes that get a turn, were not CREATED, have a row or could be given one, and are of a known kind. |
| SyncOutcome.MadeIff | internal/religion/application/service.go:114-137 | A unit comes only of a call that is admitted; one that is admitted and makes none finds another unit under its code. |
| SyncOutcome.CreatedIff | internal/congregationimport/application/jurisdictionsync.go:227-240 | A row becomes CREATED exactly when the node's unit was made and both the profile and the mark succeeded; it then names that unit, which stands in its place. |
| SyncOutcome.OtherRows | internal/congregationimport/application/jurisdictionsync.go:199-240 | What every other row is afterwards: as it was, PENDING if new, or FAILED if the call failed and that could be written. |
| SyncOutcome.CountsTell | internal/congregationimport/application/jurisdictionsync.go:115-121 | The three counts, in terms of the rows before and after. |
| SyncOutcome.OnlyTheseUnits | internal/congregationimport/application/jurisdictionsync.go:99-134 | No unit appears but those of the nodes called, and none that stood is moved or renamed. |
| SyncService.IndexByExternalID | internal/congregationimport/application/jurisdictionsync.go:82-85 | The last node fetched under an id is the one kept. |
| SyncService.UpgradeGroupingOrgKinds | internal/congregationimport/application/jurisdictionsync.go:158-178 | Exactly the nodes some node names as its parent become jurisdictions; nothing else changes. |
| SyncService.Service.ResolveParentUnitID | internal/congregationimport/application/jurisdictionsync.go:181-197 | The anchor for a node without a parent; else the unit its parent's row names, if that row is CREATED. |
| SyncService.Service.CreateChildOrg | internal/religion/application/service.go:114-137 | The unit is committed exactly when the call is admitted and its code is free, and the call succeeds exactly when the profile does too. |
| SyncService.Service.EnsureJurisdictionUnit | internal/congregationimport/application/jurisdictionsync.go:199-240 | One node's fate, row, unit and CreateChildOrg call, also when the call fails after its unit is committed. |
| SyncService.Service.OnePass | internal/congregationimport/application/jurisdictionsync.go:104-131 | A pass that moves nothing shows that nothing remaining is ready. |
| SyncService.Service.CreateInOrder | internal/congregationimport/application/jurisdictionsync.go:99-134 | The passes end, in an end of a run of turns as SyncOrder has them; the nodes dealt with are the least closed set, each called at most once each new row's unit standing under its parent's unit or the anchor; the tallies add up. The job is the one given, but for nodes that would have made a unit and lost their code to another node of the run, of which there are none if such nodes' codes are apart. |
| SyncService.Service.RunJurisdictionSync | internal/congregationimport/application/jurisdictionsync.go:53-134 | The same from the fetched list on. |
| SlugCodes.Slug | internal/congregationimport/application/jurisdictionsync.go:278-291 | The name's part is never empty, at most 40 long, of lower-case letters, digits and single hyphens, with none in front and, unless it was cut off, none at the end. |
| SlugCodes.SlugIsWords | internal/congregationimport/application/jurisdictionsync.go:278-291 | The slug is the lowered name's runs of letters and digits joined by single hyphens, or the default if there are none, cut off at forty. |
| SlugCodes.WordsAtGap | internal/congregationimport/application/jurisdictionsync.go:278-291 | Anything else between two runs keeps them apart. |
| SlugCodes.OneWord | internal/congregationimport/application/jurisdictionsync.go:278-291 | An unbroken run is one. |
| SlugCodes.SlugSpellsName | internal/congregationimport/application/jurisdictionsync.go:278-291 | The slug's letters and digits are the lowered name's, in order, from the first on; a name without any gets the default. |
| SlugCodes.HyphenFreeCodesAreApart | internal/congregationimport/application/jurisdictionsync.go:278-291 | For hyphen-free ids codes are injective in the lowered id, whatever the names. |
| SlugCodes.CodesClashIff | internal/congregationimport/application/jurisdictionsync.go:278-291 | When a code fails to tell two nodes apart: there are names under which they share one if and only if their lowered ids are equal, or one is the other behind a hyphen and something a slug can hold. |
| SlugCodes.SharedCodeIsConfusable | internal/congregationimport/application/jurisdictionsync.go:278-291 | Equal codes come only from such ids, whatever the names and the letter table. |

## Left out

- Authz.Service.Require: the panic on a system context, a programming error, is not modelled.
- HTTP, JWT and OIDC, preview tokens, error mapping, audit rows, configuration and wiring: input and output around the modelled operations.
- Several graphs at once: every closure statement filters on graph_id, so one graph is modelled, except where grants name graphs.
- Depth is shortest path length; names, codes, levels and other columns nothing decides on are dropped.
- GraphTables.Tables.VerifyClosure: the sample of five drifting pairs and the status row are not modelled.
- GraphTables.Tables.RebuildClosure: assumes the stored edges are acyclic, as every run keeps them; over a cycle the recursive query would not end.
- ConcurrentChanges.EveryCommittedStateIsSound: rebuild and verify are not among the interleaved transactions; unit deletion is the subject of `DeletionRace` instead, where the closure is left out.
- Directory.StepKeepsInv: one driver per job, deletion as one step, and no AddEdge or RemoveEdge from outside, which would falsify the job history currentParent trusts. Any number of Move calls may overlap: looking for a live job, reading the history, reading the graph and inserting the job are separate steps.
- DirectoryService.Service.Move: a call that meets no other; what overlapping calls do is in `Directory` and `MoveRuns`.
- DirectoryService.Service.DeleteUnit: the profile and assignment checks of the other modules come in as their answers.
- MergePersons.Tables.MergePersons: memberships, identities and the audit record that move in the same transaction are not modelled.
- ContentService.Service.PutBlocks: what the JSON schemas and link rules say is a parameter, a function from a block to its normalised data or to a refusal; the JSON form of a snapshot and its synthesized block ids are left out.
- Documents.AcceptedPlaces: of the sitemap, the translations and the menus, only those its kind, its group and the menu items bring a document to; deletion of documents is left out.
- ContentService.Service.TransitionDocument: one step, though the source reads the row and tests legality before the transaction that writes; `TransitionRaces` has the two apart, each writing transaction still whole.
- ContentService.Service.InsertDocument: changing a slug later is left out; `PublicPaths` takes the unique index as given.
- ContentStore.RunKeepsOk: starts from an empty store, so not from rows migrated by 0025 as PUBLISHED, whose published row is their draft; `ContentStore.IsolationIff` covers those.
- PublicPaths: nothing is claimed about depth after a page is given another parent, since only the new parent's chain is checked, not the page's own subtree; translations and navigation menus, which reuse the same two functions, are left out.
- SlugCodes: lowering is a per-character table given as a parameter, which keeps lower-case letters, digits and hyphens where that matters; truncation counts characters, which are all ASCII by then.
- SyncJob: reads of the sync table do not fail; the policy and parent checks inside CreateChildOrg are one answer, admitted or not; alias rows are left out, because they go to the first writer and so depend on the order of the map; fetching pages from the source and listing the org kinds happen before the modelled part.
- SyncService.Service.RunJurisdictionSync: operator check, unknown source and an empty fetch, which end the run before any node is looked at, are left out.
- Discovery search and its cache, theming contrast, moderation, invites, sessions, API key storage and membership positions: no further properties of this depth.
