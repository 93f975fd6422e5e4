# Integration kit: a verified model

A Dafny model of the integration kit that connects a partner's system to ShopiMind, with proofs of what
its hard parts guarantee. `dafny verify dfyconfig.toml` checks the whole project.

Code that computes a value is modelled by functions. Code that updates state is modelled by classes and
methods whose contracts equal a function of the old state, and the guarantees are lemmas about that
function. Where several calls run at once (webhooks, inbound calls, workers, syncs, dead-letter writes),
the model is a state machine whose steps are the stretches of code between two awaits, and the guarantees
hold of every run of it. Time is in integer milliseconds, tokens, ratios and delays are reals, and each
store call is one atomic step.

| module | source | what it is about |
|---|---|---|
| `SyncEngine`, `SyncRules`, `SyncGuarantees` | `src/sync/engine.ts` | windows, the cursor rule, backoff; no loss over any sequence of runs |
| `DeadLetters` | `src/sync/engine.ts` | the shared budget of the dead-letter writes |
| `BulkStep`, `Paginate` | `src/integration/define-bulk-step.ts`, `src/sync/paginate.ts` | batching, page walks, and how they meet the engine's demands |
| `Concurrency` | `src/sync/concurrency.ts` | the bounded map |
| `TopoSort`, `PlanOrder`, `Provisioning`, `Convergence`, `Ensure` | `src/provisioning/` | ordering a plan, resolving targets, find-extend-create |
| `WebhookDedup`, `Lifecycle`, `InboundIdempotency` | `src/lifecycle/` | anti-replay, the install's status, inbound idempotency |
| `AppLocks` | `src/runtime/create-app.ts` | the per-installation lock and the shutdown drain |
| `RateLimiter`, `Outbound`, `FetchRetry` | `src/runtime/` | the token bucket, the outbound gate, retries |
| `Calendar`, `StoreTime`, `Retention`, `Migration` | `src/store/` | timestamps as text, purges, the legacy migration |
| `LikeSearch` | `src/store/` | escaped LIKE patterns |
| `ConfigStore` | `src/config/config-store.ts` | saving and loading configurations |
| `Wrappers`, `Contracts`, `Text` | | shared types and string operations |

## Where the code and what is said of it differ

The model follows the code. Each of these is a lemma.

- The plan sort is called stable (`src/provisioning/runner.ts:141-142`). An unrelated definition can move:
  `TopoSort.UnrelatedLeafMoves`. Two definitions without dependencies keep their order exactly when the first
  is also reached first: `PlanOrder.LeavesKeepTheirOrderExactlyWhen`.
- `src/store/time.ts:10-13` says that legacy rows compare correctly against cutoffs because dates sort
  alike; `src/store/sqlite/migrations.ts:215-222` says they do not. The second is right:
  `Retention.LegacyIsMisjudgedExactlyOnTheCutoffDay`.
- A full run whose window starts at the old cursor is not enough to lose nothing, if events show up late:
  `SyncGuarantees.StartingAtTheCursorIsNotEnough`, with the exact conditions in `KeptExactlyWhenCovered` and
  `CompleteExactlyWhenSafe`.
- A failed attempt is not always replayed from where it began (`src/sync/engine.ts:304-306`): the start of a
  first backfill moves with the clock. Exactly when it survives: `SyncGuarantees.FirstStartSurvivesExactlyWhen`,
  and for any instant `KeptExactlyWhenReached`.
- Webhook claims protect against a second run exactly when the retention covers the tolerance, the allowed
  clock skew and the time between verifying and claiming: `WebhookDedup.SafeExactlyWhenRetentionSuffices`.
- `src/lifecycle/inbound.ts:131-132` says that two concurrent calls cannot both execute the handler. Two
  retries of a failed row can, or of one about to become failed, and from no other state:
  `InboundIdempotency.OverlapExactlyWhenNotExclusive`.
- Provisioning is convergent (`src/provisioning/ensure.ts:213-217`) with two exceptions. A blank field name or
  source field is sent again on every run, and a definition whose name the API takes for another's, such as one
  that differs by an accent (`src/provisioning/ensure.ts:69-70`), is refused on every run. A second run sends
  nothing exactly when a plan has neither: `Convergence.ProvisioningConverges`; a pair of names:
  `Ensure.AccentHomonym`.
- A sensitive value whose text is empty though it is not itself empty (an empty list) is stored, loaded
  as an empty string, and erased by the next save: `ConfigStore.ResavingIsSilentExactlyWhenNotHollow`.
- A dataset of exactly `MAX_PAGES` full pages is an error though nothing follows: `Paginate.EndsWellExactlyWhen`.
- The two stores answer searches alike exactly when the database's `lower` identifies the letters that ASCII
  folding does: `LikeSearch.StoresAgreeExactlyWhenFoldsDo`.
- A Retry-After above the cap is cut to the cap: `FetchRetry.DelayIsCapped`.

## Model

| member | source | states |
|---|---|---|
| SyncGuarantees.NoLoss | src/sync/engine.ts:192-328 | After any sequence of failed, held, skipped and clean attempts, every event at or before the cursor that was visible at the last advance, and not older than the window of an advance from which on all were safe, was pushed by a step that ran or was a tolerated reject |
| SyncGuarantees.NoLossForEveryCursor | src/sync/engine.ts:130-176 | The same for each cursor of an installation over whole runs, whatever the other entities and sources do |
| SyncGuarantees.KeptExactlyWhenCovered | src/sync/engine.ts:281-302 | An instant is safe for every source with the lag and every honest way the steps may have pushed if and only if some advance read it after its events had become visible; a clean attempt held back by rejects does not count |
| SyncGuarantees.CompleteExactlyWhenSafe | src/sync/engine.ts:281-302 | No advance of a sequence of attempts can have lost anything since the window of the first if and only if every advance is safe: what its window leaves unread was reached, and late enough, by an earlier advance |
| SyncGuarantees.SafePairsAreEnough | src/sync/engine.ts:379-393 | Every advance is safe if each is safe against the cursor and the start of the one just before it |
| SyncGuarantees.PairsAreSafeExactlyWhenComplete | src/sync/engine.ts:379-393 | With a clock and cursors that do not go back, that is also necessary |
| SyncGuarantees.ReadingBackIsSafe | src/sync/engine.ts:373-378 | A window that starts at least the visibility lag before the cursor always meets that condition |
| SyncGuarantees.BoundBehindTheClockIsSafe | src/sync/engine.ts:291-296 | So does a window from the cursor itself when the cursor stayed the lag behind the clock |
| SyncGuarantees.ReadingBackSuffices | src/sync/engine.ts:389-392 | If every attempt that advances reads back by the lag, every advance of the sequence is safe |
| SyncGuarantees.StartingAtTheCursorIsNotEnough | src/sync/engine.ts:384-388 | Two honest attempts, the second a full run from the cursor of the first, lose an event that shows up late |
| SyncGuarantees.IncrementalReadsBack | src/sync/engine.ts:389-391 | An incremental window reads back by the lag if and only if the overlap covers it |
| SyncGuarantees.FirstStartSurvivesExactlyWhen | src/sync/engine.ts:384-387 | The start of the first window made is still kept at the first advance if and only if the backfill start has not moved past it meanwhile |
| SyncGuarantees.KeptExactlyWhenReached | src/sync/engine.ts:303-325 | An instant at or before the cursor is kept, advances being safe, if and only if some advance reached back to it: an attempt that failed, or was held back, leaves no claim to its window |
| SyncGuarantees.FailedFirstBackfillSlides | src/sync/engine.ts:384-387 | Two honest attempts of which the first fails lose an event of its window |
| SyncGuarantees.CursorIsLastAdvance | src/sync/engine.ts:291-302 | The stored cursor is the bound of the last advance and never past the start of that attempt |
| SyncGuarantees.CounterCountsHeldSinceAdvance | src/sync/engine.ts:291-325 | The failure counter is the number of failed or held attempts since the last advance, and the row reads ok exactly when it is zero |
| SyncGuarantees.FailuresAreSpacedOut | src/sync/engine.ts:213-228 | n incremental failures in a row span at least 2^(n-1)-1 minutes up to n = 12 and a day more for each after that, however many ticks were skipped |
| SyncGuarantees.SpanStep | src/sync/engine.ts:64-68 | The waits between consecutive failures add up to exactly that span |
| SyncGuarantees.OnlyAdvancesMoveTheCursor | src/sync/engine.ts:214-228 | Over any attempts none of which advances the cursor stays; the whole row stays if and only if none was held back, and otherwise the failure counter has grown |
| SyncGuarantees.AlwaysIsRatioOne | src/sync/engine.ts:79-90 | Tolerating always is the ratio 1, for all counts |
| SyncGuarantees.NoErrorExactlyWhenNoneHeld | src/sync/engine.ts:156-170 | The summaries of a run hold no error if and only if no cursor was held back in it |
| SyncRules.AdvancesExactlyWhen | src/sync/engine.ts:281-295 | An attempt that is not skipped advances if and only if it ended clean with a bound and its rejects are within the policy, to the earlier of its bound and its start |
| SyncRules.StrictHoldsOnRejects | src/sync/engine.ts:79-90 | A strict step with a reject never advances: the cursor stays and a failure is counted |
| SyncRules.RatioHoldsExactlyAbove | src/sync/engine.ts:79-90 | Under a ratio a clean attempt advances if and only if nothing was rejected or at most that share of all attempted |
| SyncRules.HeldExactlyWhen | src/sync/engine.ts:283-289 | Held if and only if the step threw, reported an error or was rejected beyond its policy; a clean attempt without a bound is neither held nor advanced |
| SyncRules.SkippedExactlyWhileWaiting | src/sync/engine.ts:208-228 | The next incremental attempt after a failure is skipped if and only if it comes before the end of that failure plus 2^(k-1) minutes, at most 24 hours |
| SyncRules.SkippedExactlyWhen | src/sync/engine.ts:213-219 | From any row: the same, with what an absent or unreadable stamp means |
| SyncRules.BackoffIsTheWait | src/sync/engine.ts:64-68 | No failures, no wait |
| SyncRules.NeverSkipped | src/sync/engine.ts:212-214 | Full attempts and attempts at a cursor without failures are always made |
| SyncRules.Waits | src/sync/engine.ts:51-68 | One, two and four minutes for the first three failures, the cap from the twelfth on |
| SyncRules.WindowStarts | src/sync/engine.ts:379-393 | A full or first window starts at the backfill start whatever the cursor, any other a positive overlap before the cursor; all end when the attempt starts |
| SyncRules.RowIsOfTheLastWrite | src/sync/engine.ts:296-325 | The row holds the items, the end and the status of the last attempt that wrote it |
| SyncRules.TriedExactly | src/sync/engine.ts:147-190 | A run tries a source if and only if an enabled step before the first one that throws when asked has it |
| SyncRules.TriedInOrder | src/sync/engine.ts:147-168 | Steps are tried in their order, and the sources of a step in the order it lists them |
| SyncRules.FailsExactlyWhenAskingThrows | src/sync/engine.ts:146-175 | A run fails if and only if asking some step throws |
| SyncRules.MisconfiguredExactly | src/sync/engine.ts:150-155 | The errors that come from no attempt are as many as the enabled per-source steps without sources |
| SyncRules.SummaryTells | src/sync/engine.ts:226-328 | What a summary says of items, rejects, errors, advance and skip |
| SyncEngine.CursorsAreIndependent | src/sync/engine.ts:147-168 | Over any runs the row of a cursor is what its own attempts alone make of it |
| SyncEngine.Engine.RunOneSource | src/sync/engine.ts:192-328 | One attempt: skip, advance with clamp, hold, or leave alone, and the summary of it |
| SyncEngine.Engine.RunSources | src/sync/engine.ts:156-167 | The attempts at the sources of a step, in order, on the state each finds |
| SyncEngine.Engine.RunIntegrationSync | src/sync/engine.ts:130-190 | A run moves exactly the planned cursors; it fails when enabled() or sources() throws, is ok exactly when no error and no misconfigured step occurred |
| DeadLetters.NeverOverBudget | src/sync/engine.ts:335-362 | Under every interleaving and whatever the store does, at most 500 writes are issued and no more than were reported |
| DeadLetters.RecordsAllThatFit | src/sync/engine.ts:335-362 | If no write fails, exactly the smaller of 500 and the number reported is recorded |
| DeadLetters.ReportsAreTaken | src/sync/engine.ts:344-350 | A report comes at any time and starts writing if and only if it has an item and the budget something left |
| DeadLetters.WritesInFlightEnd | src/sync/engine.ts:349-361 | A write in flight ends well or in failure, and no other can |
| DeadLetters.StoppedStaysStopped | src/sync/engine.ts:344-361 | A report that is through, or whose write failed, issues nothing more |
| DeadLetters.FailureStopsItsReport | src/sync/engine.ts:359-361 | A failed write stops its own report only and gives nothing back to the budget |
| BulkStep.Run | src/integration/define-bulk-step.ts:41-84 | The streaming loop with its flushes pushes the accepted attempts and reports them, whichever call throws |
| BulkStep.CleanRunPushesEverything | src/integration/define-bulk-step.ts:65-83 | A clean run pushes the mapped, null-filtered stream in order, every batch but the last of the batch size; it is clean if and only if stream, map and push never throw |
| BulkStep.FailedRunHoldsTheCursor | src/integration/define-bulk-step.ts:73-78 | On any throw the pushed records are a prefix, items counts only completed pushes, and no bound is returned; a bound means everything was pushed |
| BulkStep.CleanRunReturnsItsBound | src/integration/define-bulk-step.ts:80-82 | A run in which nothing throws returns the number of records kept, no error, and the end of the window or the override |
| BulkStep.PushedAreSentAndAccepted | src/integration/define-bulk-step.ts:57-63 | The engine counts as pushed exactly what completed pushes sent and the API did not refuse |
| BulkStep.BatchSizes | src/integration/define-bulk-step.ts:42 | Five hundred by default, and never less than one |
| BulkStep.BatchesAreUnique | src/integration/define-bulk-step.ts:57-72 | There is one way only to batch records so |
| BulkStep.BoundMeansEveryPage | src/integration/define-bulk-step.ts:65-83 | Fed by pages, a bound means that the walk ended well and every record of every page was pushed |
| BulkStep.BulkStepIsHonest | src/integration/define-bulk-step.ts:53-83 | A bulk step that streams its window meets the assumption the engine's no-loss guarantee makes of a step |
| Paginate.StreamPages | src/sync/paginate.ts:39-53 | The pages yielded are the one walk over the answers |
| Paginate.PaginateItems | src/sync/paginate.ts:23-36 | The rows yielded are those of the same walk, page after page |
| Paginate.WalkIsUnique | src/sync/paginate.ts:23-53 | Both generators see the same pages and end or fail together |
| Paginate.EndsWellExactlyWhen | src/sync/paginate.ts:20-53 | A walk ends without an error if and only if one of the first 100000 answers is a last page and no rejection comes before it |
| Paginate.ShortPagesEndTheWalk | src/sync/paginate.ts:28-35 | A page ends the walk for its length if and only if a page size was asked for and it holds fewer rows; otherwise the next answer decides |
| Concurrency.MapWithConcurrency | src/sync/concurrency.ts:12-35 | Whichever worker goes on at each turn: a limit below 1 throws; all calls succeed exactly when the map does, with result i from item i; otherwise the failure reported is the first of the schedule that was run |
| Concurrency.EveryScheduleIsBounded | src/sync/concurrency.ts:24-33 | Every index goes to one worker, in order; never more calls are in flight than the limit, nor than there are items; every schedule ends |
| Concurrency.TheLimitIsReached | src/sync/concurrency.ts:32-33 | Some interleaving has min(limit, n) calls in flight at once |
| Concurrency.EveryScheduleIsCorrect | src/sync/concurrency.ts:24-34 | At the end of every schedule a worker crashed if and only if some call fails, and otherwise every slot holds its result |
| Concurrency.OverIsComplete | src/sync/concurrency.ts:24-30 | No state in which all workers have stopped leaves a slot empty unless a call failed |
| TopoSort.Sorter.VisitInPlace | src/provisioning/runner.ts:155-172 | The recursive closure on shared marks, stack and output is the traversal |
| TopoSort.SortPlan | src/provisioning/runner.ts:144-177 | The whole sort is the traversal in declaration order |
| TopoSort.SortCorrect | src/provisioning/runner.ts:144-177 | Success: the graph is acyclic and the result lists every name once, dependencies first. Failure: the report follows real edges back to a name on it |
| TopoSort.SortSucceedsExactlyWhenAcyclic | src/provisioning/runner.ts:159-164 | The sort returns if and only if the in-plan graph, self-links ignored, is acyclic |
| TopoSort.SortIsPermutation | src/provisioning/runner.ts:168-176 | For distinct names the result is a permutation of the plan |
| TopoSort.SortKeepsOrderExactlyWhenOrdered | src/provisioning/runner.ts:174-176 | The plan comes back unchanged if and only if it already lists dependencies first |
| TopoSort.SortIsIdempotent | src/provisioning/runner.ts:144-177 | Sorting twice is sorting once |
| TopoSort.UnrelatedLeafMoves | src/provisioning/runner.ts:137-143 | Two definitions without dependencies can change places |
| PlanOrder.IndependentOrderExactly | src/provisioning/runner.ts:159-176 | Of two definitions that do not need each other, the sorted plan lists first the one that the traversal reaches first, level by level |
| PlanOrder.LeavesKeepTheirOrderExactlyWhen | src/provisioning/runner.ts:141-142 | Two definitions without in-plan dependencies keep their declared order if and only if the first is reached first; if different declarations are the first to need them, the earlier one decides |
| TopoSort.ReportIsCycle | src/provisioning/runner.ts:162-164 | A report proves that no ordering exists |
| TopoSort.DependenciesExactly | src/provisioning/runner.ts:147-153 | A definition needs exactly the other definitions of the plan that its custom relationships name, each once, in the order it first names them |
| TopoSort.LastDeclaredCounts | src/provisioning/runner.ts:146 | Of several definitions of one name the last declared stands for it |
| Provisioning.RunProvisioning | src/provisioning/runner.ts:50-69 | The custom-data loop, whichever calls fail: a cycle throws before anything is sent; otherwise ids, reports, errors, writes and account are those of the run |
| Provisioning.TargetsAreSentAsIds | src/provisioning/runner.ts:112-135 | Whatever the declaration order and whichever definitions fail, each custom in-plan target other than the definition itself whose ensure returned an id is sent as that id; every other relationship, system ones and self-links among them, and all else goes out exactly as declared |
| Text.DecimalIntIsInjective | src/provisioning/runner.ts:122 | No two ids are sent as the same text |
| Text.TrimExactly | src/provisioning/ensure.ts:57-60 | Trimming takes white space off both ends, nothing else, and leaves none there |
| Text.SpacesByCode | src/provisioning/ensure.ts:57-60 | Which characters are white space, by code point |
| Text.LowerExactly | src/provisioning/ensure.ts:72-76 | Lower-casing changes the capital letters, each to its small one |
| Provisioning.EveryDefinitionIsAnswered | src/provisioning/runner.ts:51-69 | Every definition ends with an id or an error, and a malformed one is an error and never sent |
| Provisioning.StaleLinksAreErrors | src/provisioning/runner.ts:57-65 | Whenever a run comes to a definition one of whose stored links points elsewhere than the plan resolves to, and can read it, the definition is among the errors of the run |
| Provisioning.StepErrorsExactly | src/provisioning/runner.ts:52-68 | A definition is an error once for each problem and once more if it ends without an id, and otherwise not; the writes it sent and the id it got are recorded |
| Provisioning.NotSentIsOneError | src/provisioning/runner.ts:56-68 | A malformed definition, or one whose listing fails, is one error and changes nothing |
| Provisioning.WellFormedExactly | src/integration/define-integration.ts:74-90 | Well-formed means that every unique key and every source field is the name of a declared field |
| Convergence.ProvisioningConverges | src/provisioning/runner.ts:50-69 | A definition has an id after an answered run if and only if it is well-formed and not shadowed; a second run resolves the same ids and writes nothing if and only if no well-formed definition has a blank or is shadowed by a live row or by an earlier definition of the sorted plan |
| Convergence.RunSettles | src/provisioning/runner.ts:51-69 | When every call answers, the definitions with an id are exactly the well-formed ones not shadowed, each settled under it, and the shadowed ones stay refused |
| Convergence.ShadowIsForeseen | src/provisioning/ensure.ts:62-71 | Which definitions the API will refuse can be read off the account and the plan before the run |
| Convergence.SecondHomonymIsShadowed | src/provisioning/ensure.ts:69-70 | Of two definitions of a plan whose names differ for the kit but not for the API, the later one is refused even in an empty account |
| Convergence.ProvisioningRecovers | src/provisioning/runner.ts:51-69 | After a run in which calls failed, even writes that may have been carried out, what was settled stays so and the next run in which every call answers settles every definition that is not shadowed |
| Convergence.KitProvisioningConverges | src/provisioning/ensure.ts:58-76 | Convergence for the kit's own trimming and ASCII case folding, whatever letters the API folds besides |
| Ensure.Api.EnsureCustomDataDefinition | src/provisioning/ensure.ts:234-333 | Find, extend or create, whichever call fails: the id or the call that threw, the problems, the writes and the account |
| Ensure.Api.ExtendFound | src/provisioning/ensure.ts:248-313 | The branch of a found definition: stale links reported before anything is sent, what is missing appended, reports and write kept when the extend fails |
| Ensure.Api.CreateNew | src/provisioning/ensure.ts:315-332 | The branch of a name the listing does not offer: created, refused when the name is taken by the API's own comparison, or failed whether or not it was carried out |
| Ensure.FoundIsBest | src/provisioning/ensure.ts:188-201 | The chosen row is live, has an id and the wanted name, and no usable row beats it; none is chosen only if none is usable |
| Ensure.ChosenIsPreferred | src/provisioning/ensure.ts:148-201 | In the terms of the listing: active, unknown or absent status before inactive, that before creating or editing, then the lowest id; deleted rows and rows without an id never |
| Ensure.FoundIgnoresListingOrder | src/provisioning/ensure.ts:174-187 | The choice does not depend on the order of the listing |
| Ensure.EnsureSettles | src/provisioning/ensure.ts:234-333 | Against a complete listing an id is returned, and the definition settled, if and only if it is not shadowed; the account only grows |
| Ensure.EnsureKeepsSettled | src/provisioning/ensure.ts:234-333 | Ensuring any other definition keeps a settled one settled under its id |
| Ensure.FaultsLoseNothing | src/provisioning/ensure.ts:260-318 | Whichever call fails, the account only grows and settled definitions stay settled |
| Ensure.FaultsExactly | src/provisioning/ensure.ts:260-318 | A definition that cannot be read gets no id, report or write; a failed write costs the id, not the reports made before it |
| Ensure.SettledIsQuiet | src/provisioning/ensure.ts:264-312 | A settled definition is silent if and only if it has no blank field name or source field |
| Ensure.NothingReportedExactlyWhenLinksAreRight | src/provisioning/ensure.ts:275-301 | No stale link is reported if and only if the first stored link on each custom relationship's field goes where the plan wants it |
| Ensure.ReportedExactly | src/provisioning/ensure.ts:281-301 | An ensure that finds and reads a definition reports exactly the declared custom relationships whose first stored link is to another id, whatever becomes of the write |
| Ensure.ExtendSendsWhatIsMissing | src/provisioning/ensure.ts:264-311 | An extend holds exactly the declared fields and relationships the stored definition lacks, and those are what the account gains |
| Ensure.CreatedAsDeclared | src/provisioning/ensure.ts:43-55 | A create is sent under the trimmed name with all that is declared |
| Ensure.EnsureConverges | src/provisioning/ensure.ts:213-233 | A second identical call ends in the same id or refusal, and sends nothing if and only if there are no blanks and the definition is not shadowed |
| Ensure.ShadowedIsRefused | src/provisioning/ensure.ts:62-71 | A shadowed definition is sent as a create and refused, and nothing changes |
| Ensure.HomonymIsRefused | src/provisioning/ensure.ts:69-70 | One live row whose name differs for the kit but not for the API has a definition refused on every run |
| Ensure.AccentHomonym | src/provisioning/ensure.ts:69-70 | Two names that differ by an accent are such a pair under an API that folds accents |
| WebhookDedup.SafeExactlyWhenRetentionSuffices | src/lifecycle/dispatcher.ts:144-164 | One signature has at most one call at work and at most one success under every interleaving, if and only if the retention is off or covers tolerance, skew and claim delay |
| WebhookDedup.RunValid | src/store/sqlite/stores.ts:364-382 | The invariant behind it holds in every reachable state |
| WebhookDedup.ShortRetentionRunsTwice | src/runtime/create-app.ts:431-435 | A shorter retention has a run in which one webhook is processed twice |
| WebhookDedup.ReleasedCanBeRetried | src/lifecycle/dispatcher.ts:157-160 | After a release the next claim of the signature is granted, safely |
| WebhookDedup.FailureIsRetried | src/lifecycle/dispatcher.ts:155-163 | A failed call can release, and a resend is then granted; before the release it is not |
| WebhookDedup.SuccessKeepsTheClaim | src/lifecycle/dispatcher.ts:155-158 | A success is counted once and keeps the claim |
| WebhookDedup.SweepDropsExactlyTheOld | src/store/sqlite/stores.ts:380-382 | The sweep drops the claims older than the retention and no others |
| Lifecycle.Dispatcher.Upsert | src/store/sqlite/stores.ts:53-75 | Absent fields keep the stored ones, stamps are kept, the status becomes inactive |
| Lifecycle.Dispatcher.SetStatus | src/store/sqlite/stores.ts:77-100 | All three stamps are rewritten; an unknown install stays unknown |
| Lifecycle.Dispatcher.OnActivate | src/lifecycle/dispatcher.ts:200-249 | The row and the reply for every outcome of the checks |
| Lifecycle.Dispatcher.OnDeactivate | src/lifecycle/dispatcher.ts:251-260 | The row and the hook calls of a deactivation |
| Lifecycle.Dispatcher.OnUninstall | src/lifecycle/dispatcher.ts:262-271 | The row and the hook calls of an uninstall |
| Lifecycle.Dispatcher.Handle | src/lifecycle/dispatcher.ts:166-198 | One webhook moves the row of its own installation only |
| Lifecycle.ActiveExactlyWhenLastChangePassed | src/lifecycle/dispatcher.ts:185-271 | Over any sequence of webhooks, active if and only if the last status-changing one was an activation whose checks all passed |
| Lifecycle.AcceptedExactlyWhenActive | src/lifecycle/dispatcher.ts:215-248 | An activation is answered with success if and only if it leaves the install active |
| Lifecycle.AtMostOneStamp | src/store/sqlite/stores.ts:77-100 | Never more than one of the three stamps is set, and it fits the status |
| Lifecycle.HooksAreNotReplayed | src/lifecycle/dispatcher.ts:251-271 | On a known install the hooks run at most once per activation that passed, and per install or activation |
| Lifecycle.InstallsAreIndependent | src/lifecycle/dispatcher.ts:185-271 | The row of an installation depends on its own events alone |
| Lifecycle.ActivatesExactlyWhen | src/lifecycle/dispatcher.ts:215-246 | The checks under which an activation makes the install active, with its own stamp |
| Lifecycle.FailedActivation | src/lifecycle/dispatcher.ts:217-239 | A refused activation leaves no stamp, one that threw the stamps it found; the reply tells them apart |
| Lifecycle.OtherEvents | src/lifecycle/dispatcher.ts:185-271 | What installs, deactivations, uninstalls and config updates make of a known and of an unknown install |
| Lifecycle.HookRunsExactlyOnChange | src/lifecycle/dispatcher.ts:254-269 | On a known install a hook runs if and only if the status changes |
| Lifecycle.LatestFieldIsKept | src/store/sqlite/stores.ts:60-65 | Over any sequence each profile field is the latest one a payload brought along |
| Lifecycle.KnownExactlyWhen | src/store/sqlite/stores.ts:53-100 | An install is known from its first install or activation on |
| Lifecycle.UninstalledExactlyWhen | src/lifecycle/dispatcher.ts:262-271 | Uninstalled if and only if it was uninstalled while known and nothing installed or activated it since |
| Lifecycle.ActiveBearsItsStamp | src/lifecycle/dispatcher.ts:246 | An active install bears the stamp of the activation that passed last |
| InboundIdempotency.AdmittedOnceOrAfterFailure | src/lifecycle/inbound.ts:121-148 | Under every interleaving the handler is admitted by the one fresh claim or after a recorded failure, at most once before the first failure |
| InboundIdempotency.SettledStaysSettled | src/lifecycle/inbound.ts:122-135 | Once done with nothing in flight, no continuation runs the handler again |
| InboundIdempotency.ExecutionsAreFailuresPlusOneSuccess | src/lifecycle/inbound.ts:138-147 | One call at a time: executions are the failures plus at most one success |
| InboundIdempotency.TwoRetriesBothSucceed | src/store/postgres/stores.ts:301-328 | Two retries of a failed row can both run and both succeed |
| InboundIdempotency.OverlapExactlyWhenNotExclusive | src/lifecycle/inbound.ts:131-147 | From any reachable state, further calls can have two handlers run at once without another failure if and only if the row reads failed, a failure is about to be recorded in it, or two run already |
| InboundIdempotency.OverlapExactlyWhenFailed | src/lifecycle/inbound.ts:131-136 | With no handler in flight that is what the row alone says: failed, or not |
| InboundIdempotency.RunValid | src/store/sqlite/stores.ts:308-340 | The invariant that ties the row to what was admitted, failed, succeeded and is in flight holds in every reachable state |
| InboundIdempotency.CallersAreToldTheTruth | src/lifecycle/inbound.ts:138-147 | Under every interleaving exactly the calls whose handler succeeded, or failed, are told so |
| InboundIdempotency.FinishedKeyAnswersAtOnce | src/lifecycle/inbound.ts:121-123 | A finished key answers without a context being built |
| InboundIdempotency.NoContextClaimsNothing | src/lifecycle/inbound.ts:125-129 | A call without a context leaves the key as it was |
| InboundIdempotency.FreshClaimRuns | src/store/postgres/stores.ts:306-312 | A key without a row is claimed and run; otherwise the row is read |
| InboundIdempotency.FailedRowRunsAgain | src/lifecycle/inbound.ts:133-136 | Of the rows read only a failed one runs the handler again |
| AppLocks.LocksHold | src/runtime/create-app.ts:216-291 | In every reachable state at most one body runs per installation, running holds exactly the active ones, and the store is closed only after a drain or its deadline |
| AppLocks.NoSyncStartsWhileStopping | src/runtime/create-app.ts:219-231 | After stop no sync body starts |
| AppLocks.DrainedStaysDrained | src/runtime/create-app.ts:485-530 | After a drain that found nobody in flight no body ever runs against the closed store |
| AppLocks.StartsExactlyWhenIdle | src/runtime/create-app.ts:220-231 | In every reachable state a body starts if and only if none runs for the installation and, for a sync, the app is not stopping |
| AppLocks.EndFreesItsInstallation | src/runtime/create-app.ts:258-260 | A body that ends frees its installation and no other |
| AppLocks.ShutdownEnds | src/runtime/create-app.ts:513-529 | The drain closes the store at the first look that finds nobody in flight or the time over |
| AppLocks.ShutdownGoesOn | src/runtime/create-app.ts:485-529 | After stop, until the store is closed, the next step of the shutdown can always be taken |
| AppLocks.StopIsHeard | src/runtime/create-app.ts:485-487 | From stop on the app is stopping and starts no sync |
| RateLimiter.Limiter.Call | src/runtime/rate-limiter.ts:48-62 | One call of the limiter on the shared map |
| RateLimiter.Limiter.EvictKeys | src/runtime/rate-limiter.ts:33-46 | The two eviction passes in place |
| RateLimiter.EveryIntervalIsBounded | src/runtime/rate-limiter.ts:48-62 | In any stretch of any run in which a key is not evicted, whatever came before it, the key is allowed at most capacity + refillPerSec * elapsed / 1000 times |
| RateLimiter.RateIsBounded | src/runtime/rate-limiter.ts:48-62 | The same from any state with sound buckets, for any interval that holds the calls |
| RateLimiter.KeyOnItsOwn | src/runtime/rate-limiter.ts:48-62 | Between evictions a key behaves as if its bucket were alone |
| RateLimiter.GrantedExactlyWhen | src/runtime/rate-limiter.ts:52-61 | A call is refused if and only if the refilled bucket is short of one token; a new bucket is full |
| RateLimiter.SecondBringsTheRate | src/runtime/rate-limiter.ts:53 | A second brings refillPerSec tokens, and what intervals bring adds up |
| RateLimiter.BurstIsTheCapacity | src/runtime/rate-limiter.ts:52-61 | At one instant a fresh key is allowed as many calls as its capacity holds whole tokens |
| RateLimiter.ReachableIsBounded | src/runtime/rate-limiter.ts:33-62 | The map never exceeds maxKeys, and for capacity of at least 1 no bucket is ever full |
| RateLimiter.EvictDropsTheOldest | src/runtime/rate-limiter.ts:33-46 | In such a state the first pass removes nothing and exactly the least recently seen key goes |
| RateLimiter.EvictPrefersFullBuckets | src/runtime/rate-limiter.ts:34-38 | In a full map the first inserted full bucket goes before any other |
| RateLimiter.EvictMakesRoom | src/runtime/rate-limiter.ts:39-45 | Whatever the capacity, an eviction leaves room for one key |
| RateLimiter.EvictOnlyRemoves | src/runtime/rate-limiter.ts:33-46 | An eviction changes no bucket it keeps |
| RateLimiter.FewKeysAreIndependent | src/runtime/rate-limiter.ts:20-63 | With at most maxKeys keys every answer is that of unbounded independent buckets |
| Outbound.AwaitToken | src/runtime/outbound.ts:38-53 | With any calls on other keys during the sleeps, evictions of this key included, the gate opens at the first attempt that finds a token or a fresh bucket, after at most the computed number of polls |
| Outbound.Poll | src/runtime/outbound.ts:49-51 | Its loop ends within the bound; at every refusal the tokens were short of one |
| Outbound.MaxPollsIsLeast | src/runtime/outbound.ts:49-51 | The bound is the least number of polls over which a whole token flows in, and none if there is one |
| Outbound.OtherKeyCall | src/runtime/rate-limiter.ts:48-62 | A call on another key leaves a bucket as it is or evicts it |
| Outbound.StillShort | src/runtime/outbound.ts:49-51 | Whoever is still short after n polls is below ceil((1 - tokens) * 1000 / (refillPerSec * pollMs)) |
| FetchRetry.FetchWithRetry | src/runtime/outbound.ts:114-150 | The outcome returned is that of the first conclusive attempt or of the last one allowed, with one delay before each retry |
| FetchRetry.DelayIsCapped | src/runtime/outbound.ts:93-106 | No delay is negative or above the cap, nor above the doubling schedule unless the server directed it; a Retry-After is waited out if and only if it is within the cap |
| FetchRetry.TotalIsBounded | src/runtime/outbound.ts:93-150 | All delays together are at most one cap per retry, and base * (2^n - 1) when the server directs none |
| FetchRetry.JitterIsTheRandomPart | src/runtime/outbound.ts:104-105 | An undirected delay is the random part of its schedule, in whole milliseconds |
| FetchRetry.Doubles | src/runtime/outbound.ts:104 | The schedule doubles from the base delay |
| Calendar.CalendarRoundTrip | src/store/time.ts:25-28 | Reading the UTC fields of an instant and taking the instant of fields are inverse, both ways, for all years |
| Calendar.InstantsFollowFields | src/store/time.ts:4-9 | Fields compare, most significant first, exactly as instants do |
| Calendar.MonthsAre | src/store/time.ts:25-28 | The lengths of the months |
| Calendar.LeapYears | src/store/time.ts:25-28 | Known leap years and known common ones, centuries among them |
| Calendar.FourHundredYears | src/store/time.ts:25-28 | The calendar repeats after 400 years of 146097 days |
| Calendar.EpochIsZero | src/store/time.ts:25-28 | Instants count from 1970 |
| Calendar.DayIsAdded | src/store/time.ts:27-29 | The next day of a month is 86400000 milliseconds later |
| StoreTime.TextOrderIsTimeOrderExactly | src/store/time.ts:25 | Two timestamps compare as text as their instants do if and only if their years are of kinds that sort so |
| StoreTime.StampsCompareAsInstants | src/store/time.ts:24-29 | For years 0-9999 they always do |
| StoreTime.StampsAreReadBack | src/store/time.ts:39-44 | Every stamp of the years 0-9999 is parsed back to its very instant |
| StoreTime.LegacyIsReadToTheSecond | src/store/time.ts:30-44 | A legacy stamp is parsed back to its instant less the milliseconds it does not hold |
| StoreTime.OnlyTimestampsAreRead | src/store/time.ts:35-44 | A text is read as an instant only if it is the canonical, the second-precise or the legacy text of a calendar reading of it, hour 24 apart |
| StoreTime.IsoSecondsIsRead | src/store/time.ts:39-42 | The canonical text without milliseconds is read as its instant |
| StoreTime.EndOfDayIsNextMidnight | src/store/time.ts:39-44 | 24:00:00 of a day is read as the first instant of the next |
| Retention.LogTable.PurgeOlderThan | src/store/repositories.ts:110-112 | For stamps in the format, the rows left are those that purging by instant leaves, and the number returned is that of the others |
| Retention.LogTable.CountSince | src/store/sqlite/stores.ts:451-458 | Comparing texts counts the rows of an instant not before the cutoff, and the refused ones among them |
| Retention.StoreFormatIsFaithful | src/store/time.ts:25-34 | The store's own stamps sort and read back as instants in years 0-9999, which is what purge and count need of a format |
| Retention.TableFollowsTime | src/store/sqlite/stores.ts:342-344 | Over any run of writes and purges in four-digit years the table is exactly what purging by instant leaves, in order |
| Retention.SinceIsExact | src/store/sqlite/stores.ts:380-382 | Purging by instant removes every older row and loses no other, counted with multiplicity |
| Retention.LegacyComparesByDate | src/store/sqlite/migrations.ts:215-222 | A legacy row counts as older than a cutoff exactly when its date is not later |
| Retention.LegacyIsMisjudgedExactlyOnTheCutoffDay | src/store/time.ts:10-13 | The comparison is wrong if and only if the row is of the cutoff's day and not before it |
| Migration.Database.Update | src/store/sqlite/migrations.ts:231-232 | One UPDATE normalizes its column row by row and leaves the others alone |
| Migration.Database.Migrate | src/store/sqlite/migrations.ts:231-272 | The script normalizes every timestamp column of the schema |
| Migration.SelectedExactly | src/store/sqlite/migrations.ts:226-232 | The pattern selects exactly the nineteen-character texts with the five separators |
| Migration.MigrationIsIdempotent | src/store/sqlite/migrations.ts:227-228 | Running it again changes no text whatever |
| Migration.MigrationKeepsInstants | src/store/sqlite/migrations.ts:209-272 | Every text reads as the same instant, or as none, before and after |
| Migration.ColumnKeepsItsMeaning | src/store/sqlite/migrations.ts:226-272 | In a whole column NULL stays NULL, texts of another length stay as they are, and every text keeps its instant |
| Migration.LegacyBecomesIso | src/store/sqlite/migrations.ts:215-232 | A legacy value becomes the canonical text of its instant, and a canonical one stays |
| Migration.MigratedColumnsSortByTime | src/store/sqlite/migrations.ts:222-226 | Afterwards the values of both writers compare as their instants do |
| LikeSearch.SearchIsSubstring | src/store/sqlite/stores.ts:131-133 | The pattern built from a term matches a value if and only if the term occurs in it literally, under any comparison of characters |
| LikeSearch.PostgresSearchIsSubstring | src/store/postgres/stores.ts:107-113 | The same when pattern and column are both lowered |
| LikeSearch.StoresAgreeExactlyWhenFoldsDo | src/store/sqlite/stores.ts:42-44 | The two stores answer every search alike if and only if their case foldings identify the same letters |
| LikeSearch.EscapingIsNeededExactlyForMeta | src/store/sqlite/stores.ts:32-33 | Unescaped, a term searches for itself if and only if it holds no metacharacter, exactly or up to case |
| LikeSearch.CaseFoldingKeepsMeta | src/store/sqlite/stores.ts:42-44 | Exact comparison and ASCII case folding both keep every metacharacter apart from other characters |
| LikeSearch.ListFindsMentions | src/store/sqlite/stores.ts:125-136 | An installation is listed if and only if its status fits and a column that is not null mentions the term |
| ConfigStore.CollectFields | src/config/config-store.ts:13-19 | The fields of steps, schema and groups, in order |
| ConfigStore.SensitiveIsSealedOthersPlain | src/config/config-store.ts:13-49 | Of the schema itself: a key declared sensitive in any step, field or group is never in the plain entry and is sealed unless empty; a key no declaration marks is stored plain and never sealed |
| ConfigStore.StateRepo.SaveConfigs | src/config/config-store.ts:27-49 | Every entry afterwards, whatever was stored before and in whatever order the keys are visited |
| ConfigStore.StateRepo.LoadConfigs | src/config/config-store.ts:51-59 | The stored secrets of the schema over the parsed plain entry, nothing for an absent or empty one, and the parse error for one that is not JSON |
| ConfigStore.LoadAfterSave | src/config/config-store.ts:27-59 | From any earlier state loading returns the saved map, sensitive values as text, empty sensitive values absent |
| ConfigStore.NoSecretInPlainAndNoneStale | src/config/config-store.ts:43-48 | The plain entry never holds a sensitive key and no stale secret survives |
| ConfigStore.ResavingIsSilentExactlyWhenNotHollow | src/config/config-store.ts:27-59 | Saving what was loaded changes nothing if and only if no sensitive value has an empty text without being empty |
| ConfigStore.NoTextExactly | src/config/config-store.ts:37-38 | The values that are saved as an empty secret are the arrays of nothing, or of one item without text |
| ConfigStore.TextOf | src/config/config-store.ts:37 | The text a value is sealed as |

## Left out

- The HTTP servers, routes, admin UI, sessions, manifests, health and repository facades: plumbing and projections.
- Signature hashing, encryption and the SDK: a signature check is a bounded window of time around its timestamp, sealing is the exact inverse of opening, and API calls are answers given as parameters.
- PII masking and log redaction, log lines and the texts of error messages: errors are kept as counts or as the names they concern.
- Provisioning.RunProvisioning: data sources, events and order statuses are left out, one independent call each; in the source the data sources have been sent when a dependency cycle throws.
- SyncEngine.Engine.RunIntegrationSync: a store call that throws, or a bound that is not a valid date, also ends a run in the source.
- Descriptions, labels, options and defaults of fields, and the activation call after a create: they do not take part in matching or extending.
- Spellings: `trim`, lower-casing and the API's own name key are parameters of the provisioning model, with ASCII folding as one instance; of the API's key it is assumed that names equal for the kit are equal for the API. Listings are complete: the page limit of 100 rows (`src/provisioning/ensure.ts:140-146`) is not modelled.
- LikeSearch.PostgresSearchIsSubstring: `lower` maps characters one by one.
- The start of a backfill window is an arbitrary function of the clock, because it is local calendar arithmetic.
- The runs table, the sweep flag and timers of the application, and a second call of `stop`.
- Store calls never fail in the models, except for dead-letter writes; API calls of provisioning may.
- Provisioning started by a webhook: it does not take the lock, so `AppLocks` says nothing about it.
- InboundIdempotency.RunValid: rows are not purged in this model, so the second insert of a claim whose row vanished between its insert and its read is not reached.
- WebhookDedup.SafeExactlyWhenRetentionSuffices: the claim table and the calls are values in a state machine rather than objects, because the claim, the handlers and the sweep interleave.
- Paginate.PaginateItems: a stream is what a consumer that reads to the end is given; that pages are fetched only as they are read is not modelled.
- StoreTime.StampsAreReadBack: `Date.parse` is modelled on its interchange format with a four-digit year and `Z`; other inputs are no result.
- FetchRetry.FetchWithRetry: the header is taken as parsed, sleeps do not fail, and the number of attempts is an integer.
- Provisioning.TargetsAreSentAsIds: an unresolved target named like an inherited member of a plain object (`toString`) is left as declared in the model, while the lookup in the source finds the member.
- AppLocks.LocksHold: that `running` is released on every exit path is one event, as the source's `finally` block has it; no reprovision starts once the HTTP servers have stopped, since it is reached through them only.
- ConfigStore.LoadAfterSave: JSON is a pair of functions of which the parser inverts the renderer.
- Floating-point rounding and clocks that go back.
