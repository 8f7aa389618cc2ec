# grlx: verified model of recipe cooking, job status, cohorts and keys

grlx manages fleets of machines ("sprouts") from a central "farmer". The farmer
turns a recipe into a graph of steps and sends it to a sprout; the sprout cooks
the steps concurrently and reports each completion; the farmer's replicas record
the reports. This project models the parts of grlx whose correctness spans many
operations, and proves what they promise:

- **Recipes** (`Recipe`, `Rootball`, `Trees`, `Prune`, `Includes`): collecting
  includes, the checks for duplicate IDs, undefined requisites and cycles, the
  linking of steps into trees, and pruning to one target step.
- **Cooking** (`Requisites`, `Scheduler`, `Confluence`, `Progress`,
  `SproutCook`): the requisite language and the sprout's event loop. The loop is
  a transition system: any completion in flight may arrive next and the
  completion map may be scanned in any order; how a launched step turns out is an
  oracle, fixed per step ID.
- **Job status** (`StatusIndex`, `EndToEnd`): the status row that several
  replicas update in no fixed order, and its composition with the sprout's event
  stream.
- **Cohorts** (`Cohorts`): the static validator and the evaluator of boolean
  sprout groups.
- **Keys and text** (`BoxKeys`, `BoxKeyHistory`, `JobKeys`, `JobStore`,
  `Redact`): box-key rotation under a clock, the job object keys and their
  expiry, and redaction of sensitive values.

`Graphs`, `Sets`, `Strings` and `Options` are shared vocabulary. `Graphs.Tame`
(every walk from a name is short and stays in the graph) carries the arguments
about cycles, stalls and nesting depth; `Graphs.TameMeansShortWalks` shows that it
means just that.

Main results:

- Every run of the scheduler that has nothing left in flight ends in the same
  completion map and has published the same completions, for every envelope,
  cyclic or not (`Confluence.AllRunsEndAlike`); for a valid recipe that map is the
  sequential meaning of the recipe (`Progress.RunComputesMeaning`); pruning does
  not change it for any kept step (`Prune.PruningKeepsMeaning`). Any two cooks of
  an envelope that have time to receive everything return the same result
  (`SproutCook.PatientCooksAgree`).
- A valid recipe finishes, in exactly one receive per step plus one, if and only
  if no step's meaning is left open by a skipped step
  (`Progress.FinishesUnlessOpenOnSkip`). The source reads a skipped step as still
  pending, so a step that requires one whose `cond` test fails waits until the
  timeout (`Progress.SkippedRequirementStalls`).
- Cycle detection is exact (`Rootball.HasCycle`). The unmarked witness search it
  ends in is for one step of the recipe: from the first step that leads to a cycle,
  go on to the first requisite that does, until a step is met twice
  (`Rootball.MetTwiceUnique`). The search shows a real cycle if and only if that
  step has a name and its requisites do not lead to an empty ID before they lead
  back to it (`Rootball.CycleShownExactly`). The source takes an empty ID for the
  start of its search, so otherwise it shows only the empty ID, or begins again and
  never returns (`Rootball.EmptyIDNeverEnds`).
- Whatever the schedule on the sprout and however the replicas interleave their
  writes, the status finally stored is right, and no earlier one misleads
  (`EndToEnd.StoredStatusIsRight`, `EndToEnd.StoredStatusNeverMisleads`).
- The cohort validator accepts exactly the registries whose cohorts all resolve,
  and resolution yields the unique solution of the cohort set equations
  (`Cohorts.ValidateReferencesAll`, `Cohorts.MeaningIsUnique`,
  `Cohorts.MeaningsSolve`).
- A read of a sprout's box keys answers what the submitted keys call for, in every
  run of enrolments, rotations and reads (`BoxKeys.EveryReadIsRight`). Exactly one
  key is active if and only if every enrolment since the last rotation to a key not
  then active names the key then in use (`BoxKeyHistory.OneActiveExactly`); a sprout
  enrolled again under another key has two, of which a read names one and drops the
  other (`BoxKeyHistory.SecondEnrolmentLeavesTwo`).

Check the whole project with `dafny verify dfyconfig.toml`.

## Model

| member | source | states |
|---|---|---|
| `Recipe.CollectAllIDs` | internal/cook/cooktypes.go:140-146 | the loop yields the concatenation of all requisites' step IDs |
| `Recipe.AllIDsMembers` | internal/cook/cooktypes.go:140-146 | an ID is collected if and only if some requisite lists it |
| `Recipe.AllIDsInOrder` | internal/cook/cooktypes.go:140-146 | the IDs are collected requisite by requisite, each requisite's in its own order |
| `Recipe.StepMapLast` | internal/cook/sproutcook.go:45-48 | of several steps with one ID the map holds the last |
| `Requisites.RequisitesAreMet` | internal/cook/sproutcook.go:290-390 | the flag-driven loops decide as the declarative reading: fail if any requisite is broken, run if all are met, else wait |
| `Requisites.CheckEvery` | internal/cook/sproutcook.go:298-330 | `require`, `onfail`, `onchanges`: broken iff one named step ended the wrong way, met iff all ended the right way |
| `Requisites.CheckAny` | internal/cook/sproutcook.go:332-384 | the `_any` forms: met iff one named step ended the right way, broken iff all ended the wrong way, the empty list included |
| `Requisites.RunsExactlyWhen` | internal/cook/sproutcook.go:298-390 | a step runs iff, requisite by requisite, the named steps have the statuses its condition asks for, written out for all six conditions |
| `Requisites.FailsExactlyWhen` | internal/cook/sproutcook.go:298-390 | a step is failed iff some requisite has the statuses that rule it out, written out for all six conditions and an unknown one |
| `Requisites.VerdictStable` | internal/cook/sproutcook.go:290-390 | a run or fail decision is the same on every later map that keeps the settled entries |
| `Requisites.VerdictLocal` | internal/cook/sproutcook.go:290-390 | the decision depends only on the entries of the steps named |
| `Scheduler.ReceiveInv` | internal/cook/sproutcook.go:77-87 | recording a completion keeps the invariant: sent once, starts justified, entries agree with reports |
| `Scheduler.VisitInv` | internal/cook/sproutcook.go:89-222 | deciding one step keeps the invariant, whatever was decided before it in the pass |
| `Scheduler.IdleScan` | internal/cook/sproutcook.go:88-226 | a pass that launches nothing changes nothing and found every unstarted step waiting |
| `Scheduler.NextInv` | internal/cook/sproutcook.go:77-222 | one receive and one pass, in any order, keep the invariant and publish exactly the completion received |
| `Scheduler.RunInv` | internal/cook/sproutcook.go:74-242 | the invariant holds in every state of every run, after exactly as many receives as steps taken |
| `Confluence.SharedStepsEndAlike` | internal/cook/sproutcook.go:74-242 | two jobs that share a set of steps closed under requisites end alike on it, under any two schedules |
| `Confluence.AllRunsEndAlike` | internal/cook/sproutcook.go:74-242 | confluence: same final completion map, same published completions, same number of receives |
| `Progress.SendsAreOnceAndBounded` | internal/cook/sproutcook.go:49-63 | in every reachable state each step has sent at most one completion and all sends fit the channel buffer of n + 1 |
| `Progress.EndedStays` | internal/cook/sproutcook.go:87-117 | an entry that has ended is never overwritten with anything else |
| `Progress.StartsAreJustified` | internal/cook/sproutcook.go:96-117 | in every reachable state a started step's requisites still decide it; a launched one's still say run |
| `Progress.EndsByVerdict` | internal/cook/sproutcook.go:96-117 | in a finished run a step shows and has published its own outcome, a failure, or nothing, by its verdict on the final map |
| `Progress.AllReceivedMeansAllEnded` | internal/cook/sproutcook.go:227-242 | n + 1 completions have been received iff nothing is in flight and every step has ended, and never more |
| `Progress.RunComputesMeaning` | internal/cook/sproutcook.go:74-242 | for a valid recipe every finished run agrees with the step-by-step meaning worked out from the requisites up |
| `Progress.FinishesUnlessOpenOnSkip` | internal/cook/sproutcook.go:88-242 | with nothing in flight, all steps have ended, after exactly n + 1 receives, iff no step's meaning is left open by a skip |
| `Progress.NoStall` | internal/cook/sproutcook.go:61-64 | if no step that another needs is skipped, the run finishes in exactly n + 1 receives |
| `Progress.SkippedRequirementStalls` | internal/cook/sproutcook.go:322-330 | a concrete recipe in which a step requiring a skipped one is never started |
| `Progress.EveryRunCompletes` | internal/cook/sproutcook.go:74-77 | every run can be carried on to one with nothing in flight |
| `SproutCook.Prepare` | internal/cook/sproutcook.go:36-48 | the completion map starts with every step not started, the step map with the last step of each ID |
| `SproutCook.CountableExactly` | internal/cook/sproutcook.go:49-63 | the loop launches as many steps as it waits for iff no ID repeats and none is the job's start ID |
| `SproutCook.ScanCompletionMap` | internal/cook/sproutcook.go:88-222 | a pass over the map is a scan of the transition system in some order of all keys |
| `SproutCook.CookRecipeEnvelope` | internal/cook/sproutcook.go:31-259 | for any envelope the loop produces a run, publishes its completions and one bookend, and returns success iff every step has ended and the IDs are countable; otherwise the deadline came or nothing was left in flight; the first and the closing event are given letter by letter |
| `SproutCook.ValidRecipeCooks` | internal/cook/sproutcook.go:61-64 | given time, a cook with defined, acyclic requisites returns success iff its IDs are countable and no step is left open by a skip, and its steps end in their meaning |
| `SproutCook.PatientCooksAgree` | internal/cook/sproutcook.go:31-259 | any two cooks of any envelope, cyclic or not, given time return the same result, the same final entries and the same multiset of published events |
| `Rootball.NoDuplicateIDs` | internal/cook/rootball.go:98-109 | reports exactly the IDs that occur again, where they do, and success iff there are none |
| `Rootball.RepeatsCounted` | internal/cook/rootball.go:98-109 | an ID is reported once for each occurrence but its first |
| `Rootball.RepeatsInOrder` | internal/cook/rootball.go:98-109 | what is reported of the first steps comes first |
| `Rootball.AllRequisitesDefined` | internal/cook/rootball.go:111-125 | reports exactly the IDs required but not defined, as often and in the order they are required; with unique IDs, success iff the requisite graph is closed |
| `Rootball.DemandsInOrder` | internal/cook/rootball.go:117-118 | what is required is taken step by step |
| `Rootball.MissingInOrder` | internal/cook/rootball.go:118-122 | and what is undefined of it stays in order |
| `Rootball.FindCycle` | internal/cook/rootball.go:76-96 | on a lead back to the top it returns a chain of requisite edges from the top to itself (the empty ID if that is the top), as the unbounded search does; in a cleared branch it returns nothing and the branch is clear of the empty ID; it is endless only where the requisites lead off to the empty ID first |
| `Rootball.AstrayNeverEnds` | internal/cook/rootball.go:76-96 | where the requisites of the top lead to the empty ID before they lead back, no call depth suffices |
| `Rootball.EmptyIDNeverEnds` | internal/cook/rootball.go:81-83 | on a concrete recipe with an empty step ID the verdict can only be that the search never returns |
| `Rootball.CycleSearch.Dfs` | internal/cook/rootball.go:60-74 | when a step is met twice, it was by always taking the first requisite that leads to a cycle, and what is told is what the search for it comes to; otherwise all walks from the step are bounded and avoid the stack, and the marks are as before |
| `Rootball.CycleSearch.DfsRequisites` | internal/cook/rootball.go:65-70 | the loop over requisites clears every one of them of the stack, or meets a cycle |
| `Rootball.HasCycle` | internal/cook/rootball.go:127-146 | a cycle is met iff the requisite graph has one; what is told is exactly what the search for the step met twice comes to; without an empty ID a real cycle |
| `Rootball.ClearedUnlessCycle` | internal/cook/rootball.go:60-74 | walks from a step are bounded, which is what validates it, iff its requisites lead to no cycle |
| `Rootball.MetTwiceUnique` | internal/cook/rootball.go:60-74 | the order of the steps and of their requisites determines the step met twice |
| `Rootball.CycleShownExactly` | internal/cook/rootball.go:76-96 | for every recipe with a cycle and its step met twice: a real cycle is shown iff the step has a name and its requisites do not lead to the empty ID first; the empty ID alone iff it is that step; no return iff they do |
| `Trees.LinkRequisite` | internal/cook/rootball.go:51-54 | to one requisite's links those its IDs name are appended in order, exactly those steps are newly marked, nothing else changes |
| `Trees.LinkStep` | internal/cook/rootball.go:50-55 | to all of a step's requisites the links they name are appended and exactly the steps it requires are newly marked |
| `Trees.LinkAll` | internal/cook/rootball.go:49-56 | whatever the map order, every step gains exactly the links it names and a step is newly marked iff some step requires it |
| `Trees.FindRoots` | internal/cook/rootball.go:148-156 | the unmarked steps, in order |
| `Trees.RootsInOrder` | internal/cook/rootball.go:148-156 | the roots of one part of the list, then those of the next |
| `Trees.CheckRecipe` | internal/cook/rootball.go:24-44 | each error is reported iff its cause is there and no earlier check fails, and names exactly the repeated or the undefined IDs; a cycle is told exactly as the search for the step met twice comes out |
| `Trees.CycleTruthfullyShown` | internal/cook/rootball.go:40-44 | the check shows a real cycle iff the step met twice has a name and does not lead to the empty ID first, and never returns iff it does |
| `Trees.NamedCyclesAreShown` | internal/cook/rootball.go:40-44 | without an empty ID the check always returns and shows a real cycle |
| `Trees.EveryStepUnderARoot` | internal/cook/rootball.go:57-57 | in a valid recipe every step is reachable from a step nobody requires |
| `Trees.LinkTrees` | internal/cook/rootball.go:45-57 | links and marks are added to those there are; from freshly built steps a forest: links, marks, roots and reachability from the roots |
| `Trees.ValidateTrees` | internal/cook/rootball.go:24-58 | passes iff IDs are unique, requisites defined and no cycle exists; then links and marks are added, a forest if the steps were fresh; otherwise untouched, with the errors the check names |
| `Prune.Pruner.Visit` | internal/cook/helpers.go:562-577 | keeps the step and only what it reaches, with everything newly kept fully expanded, or names a reachable undefined step |
| `Prune.Pruner.VisitRequisites` | internal/cook/helpers.go:571-575 | the loop over requisites expands the step just kept |
| `Prune.PruneToTarget` | internal/cook/helpers.go:551-589 | returns exactly the steps reachable from the target; fails iff the target is absent or a reachable requisite is undefined, and names the first one met |
| `Prune.NamedUnique` | internal/cook/helpers.go:562-577 | the order of the requisites determines the undefined one that is named |
| `Prune.SelectMembers` | internal/cook/helpers.go:582-587 | what is kept is exactly the steps whose ID is, and stays free of duplicates |
| `Prune.SelectOrder` | internal/cook/helpers.go:548-550 | kept steps are in their original relative order |
| `Prune.SelectInOrder` | internal/cook/helpers.go:582-587 | what is kept of one part of the list, then of the next |
| `Prune.PruningKeepsValid` | internal/cook/helpers.go:551-589 | a valid recipe prunes without error to a valid recipe |
| `Prune.PruningKeepsMeaning` | internal/cook/farmercook.go:117-125 | every kept step ends the same way cooked from the full or from the pruned recipe, under any two schedules |
| `Includes.Collector.Expand` | internal/cook/helpers.go:469-489 | loads one name and lists its includes, or shows that a needed recipe cannot be loaded |
| `Includes.Collector.Pass` | internal/cook/helpers.go:468-499 | a range over the growing map either finds all done or makes progress |
| `Includes.Collector.CollectRecurse` | internal/cook/helpers.go:464-502 | the self-recursive worklist terminates with every listed name loaded |
| `Includes.CollectAllIncludes` | internal/cook/helpers.go:142-171 | returns each name reachable from the root once and no other; fails iff one of them cannot be loaded |
| `StatusIndex.StatusExpr` | internal/jobs/status_index.go:115-121 | when each of the four statuses comes out, for every row |
| `StatusIndex.IndexableRange` | internal/jobs/status_index.go:161-164 | a key is indexed iff no part is empty and their lengths are at most 191, 253 and 64 |
| `StatusIndex.JobStatusTable.UpsertJobEvent` | internal/jobs/status_index.go:220-251 | the row gains exactly the event's columns, its status is untouched, other rows unchanged |
| `StatusIndex.JobStatusTable.RefreshJobStatus` | internal/jobs/status_index.go:254-258 | the status becomes that of the columns; a missing row stays missing |
| `StatusIndex.JobStatusTable.IndexJobEvent` | internal/jobs/status_index.go:156-177 | both writes for an in-range key, none otherwise |
| `StatusIndex.IndexInTurn` | internal/jobs/status_index.go:156-177 | indexing a job's events one after the other leaves the row of that interleaving, and none for a key out of range |
| `StatusIndex.IndexInterleaved` | internal/jobs/status_index.go:220-258 | carrying out upserts and refreshes in any interleaving leaves the row that the theorems speak of |
| `StatusIndex.InTurnComplete` | internal/jobs/status_index.go:156-177 | one after the other is one of the complete interleavings |
| `StatusIndex.InterleavingExactly` | internal/jobs/status_index.go:216-219 | an interleaving is any order in which each event is upserted once, and refreshed at most once after that |
| `StatusIndex.PlayColumns` | internal/jobs/status_index.go:216-219 | after any interleaving the columns depend only on the set of events upserted |
| `StatusIndex.NoEarlyVerdict` | internal/jobs/status_index.go:31-38 | a terminal status is stored only after the timeout or every step's event, and names the right outcome |
| `StatusIndex.NoRetractedVerdict` | internal/jobs/status_index.go:31-41 | along any interleaving the stored status only moves forward and a terminal one never changes |
| `StatusIndex.CompletePlayIsCurrent` | internal/jobs/status_index.go:40-41 | once all events are upserted and refreshed the stored status is that of all of them |
| `EndToEnd.StreamReads` | internal/jobs/status_index.go:136-146 | the seed is read as the start, every other completion received as a step with its failure |
| `EndToEnd.BookendReads` | internal/cook/sproutcook.go:228-256 | the closing event is read as finished or timed out, never both |
| `EndToEnd.RunIsCookLike` | internal/cook/sproutcook.go:77-87 | the events of any run, finished or timed out, are at most n steps and one bookend, as the index expects |
| `EndToEnd.StoredStatusIsRight` | internal/jobs/status_index.go:115-146 | for any schedule and any interleaving the final status is `failed` iff a step failed or the run timed out, else `succeeded` |
| `EndToEnd.CookIsStoredRight` | internal/cook/sproutcook.go:31-259 | the same for what the cook loop returns and publishes: the events as indexed lead to that status, and a cook that reports success has ended every step |
| `EndToEnd.IndexCook` | internal/jobs/status_index.go:150-177 | the row the table holds after a cook's events were indexed has that status, for every key in range; other rows are untouched |
| `EndToEnd.StoredStatusConverges` | internal/jobs/status_index.go:17-41 | two finished cooks of one envelope store the same status |
| `EndToEnd.PatientCooksStoreAlike` | internal/jobs/status_index.go:17-41 | any two cooks of one envelope given time store the same status, finished or not |
| `EndToEnd.StoredStatusNeverMisleads` | internal/jobs/status_index.go:31-41 | over every prefix the status only moves forward; `succeeded` means every step's event is applied and no step failed |
| `Cohorts.MatchMeaning` | internal/rbac/cohort.go:440-454 | a star at either end of the expected value stands for any text, alone for any non-empty text |
| `Cohorts.Validator.ComputeDepth` | internal/rbac/cohort.go:273-297 | returns the length of the longest reference chain and restores the visited marks; fails iff chains are unbounded or leave the registry, with the error the first such chain ends in |
| `Cohorts.Validator.MaxOperandDepth` | internal/rbac/cohort.go:285-294 | the greatest operand depth, or an operand without one |
| `Cohorts.DepthDecidesResolution` | internal/rbac/cohort.go:255-262 | a depth is within the limit iff the evaluator's bound holds |
| `Cohorts.CheckOperands` | internal/rbac/cohort.go:240-249 | no error iff every operand is registered, and no other error |
| `Cohorts.ValidateReferencesAll` | internal/rbac/cohort.go:237-268 | no error iff every registered cohort resolves; not-found iff an operand is unknown, too-deep iff some depth exceeds 16, circular only if there is a circle |
| `Cohorts.Accepted` | internal/rbac/cohort.go:83-122 | which definitions pass validation, type by type |
| `Cohorts.Intersect` | internal/rbac/cohort.go:496-504 | the loop computes the intersection |
| `Cohorts.Union` | internal/rbac/cohort.go:506-515 | the loops compute the union |
| `Cohorts.Difference` | internal/rbac/cohort.go:517-525 | the loop computes the difference |
| `Cohorts.ResolveStatic` | internal/rbac/cohort.go:412-418 | exactly the listed members |
| `Cohorts.ResolveDynamic` | internal/rbac/cohort.go:426-436 | exactly the known sprouts whose property matches |
| `Cohorts.ResolveAt` | internal/rbac/cohort.go:386-410 | succeeds iff every reference chain from the name fits the remaining depth and stays in the registry, and then yields its meaning; otherwise the error is the one the first faulty chain ends in |
| `Cohorts.ResolveCompound` | internal/rbac/cohort.go:456-486 | the same for a compound cohort, operands folded left to right |
| `Cohorts.Resolve` | internal/rbac/cohort.go:381-384 | succeeds iff no reference chain has more than 16 links or leaves the registry; not-found for a name outside it |
| `Cohorts.BlameUnique` | internal/rbac/cohort.go:386-410 | the order of the operands determines the error |
| `Cohorts.BlameShows` | internal/rbac/cohort.go:386-398 | not-found means a chain leaves the registry, circular that the references go in a circle, too-deep that a chain has one link more than the limit |
| `Cohorts.FoldedMembers` | internal/rbac/cohort.go:469-483 | the fold is the intersection of all, the union of all, or the first less the rest |
| `Cohorts.MeaningIsUnique` | internal/rbac/cohort.go:456-486 | the result is what any solution of the cohort set equations gives the name |
| `Cohorts.MeaningsSolve` | internal/rbac/cohort.go:456-486 | the results do solve the equations, shared operands included |
| `BoxKeys.BoxKeyTable.UpsertSproutBoxKeyActive` | internal/pki/boxkeys.go:102-112 | the key's row becomes active and no other row changes; nothing for an undecodable key |
| `BoxKeys.BoxKeyTable.RotateSproutBoxKey` | internal/pki/boxkeys.go:128-158 | active rows move to grace with one deadline and the new key becomes active; nothing for an active or undecodable key |
| `BoxKeys.BoxKeyTable.ValidSproutBoxKeys` | internal/pki/boxkeys.go:175-203 | returns some active key and exactly the unexpired grace keys, sweeping or not; an error iff there is no active row |
| `BoxKeys.RunHolds` | internal/pki/boxkeys.go:102-203 | after every run of enrolments, rotations and reads the table holds the submission history, but for expired rows that may be swept |
| `BoxKeys.EveryReadIsRight` | internal/pki/boxkeys.go:160-174 | in every run a read, swept or not, may answer exactly with one of the keys in use and the former keys whose deadline is ahead, an error iff none is in use; the other keys in use are left out |
| `BoxKeys.SweepRevokes` | internal/pki/boxkeys.go:178-182 | a successful sweep leaves every former key revoked if its deadline has come and in grace if not |
| `BoxKeyHistory.InForceAreActive` | internal/pki/boxkeys.go:102-158 | the keys in use are those named by the last rotation to a key not then in use and the enrolments since |
| `BoxKeyHistory.OneActiveExactly` | internal/pki/boxkeys.go:102-158 | in every run exactly one row is active iff every enrolment since the last rotation to a key not then in use names the key then in use |
| `BoxKeyHistory.OneActiveAfter` | internal/pki/boxkeys.go:102-158 | enrolling leaves one active row iff no other key is active; rotating does unless the key is one of several active ones |
| `BoxKeyHistory.SecondEnrolmentLeavesTwo` | internal/pki/enroll.go:275-275 | enrolled under one key and then another, a sprout has two active rows, and a read names either and leaves out the other |
| `BoxKeyHistory.AnswerIsDetermined` | internal/pki/boxkeys.go:191-198 | what a read answers is determined iff no two rows are active |
| `BoxKeyHistory.LastSubmittedIsActive` | internal/pki/boxkeys.go:114-120 | the key last submitted, by enrolment or rotation, is in use |
| `BoxKeyHistory.DeadlineIsLatest` | internal/pki/boxkeys.go:122-127 | a former key's deadline dates from the last rotation away from it; keys without one are in use or were never used |
| `JobKeys.EventTimeInverts` | internal/jobs/store.go:424-442 | the receive time is recovered from the event key iff it is not before 1970; of an earlier one no time is read |
| `JobKeys.EventKeysSortByTime` | internal/jobs/store.go:420-428 | one job's event keys in key order are in receive-time order, except that those before 1970 are in reverse |
| `JobKeys.ParseKeyExact` | internal/jobs/store.go:467-493 | a key is read as a job's created, meta or event object iff that is what it is stored under |
| `JobKeys.ReadInFull` | internal/jobs/store.go:396-493 | which keys are read as which object, letter by letter, for every sprout ID and job ID |
| `JobKeys.KeysInFull` | internal/jobs/store.go:404-428 | the keys that are written, letter by letter |
| `JobKeys.LexDecides` | internal/jobs/store.go:494-496 | in key order the first difference decides, and a text comes before those it begins |
| `JobKeys.EventKeyParses` | internal/jobs/store.go:424-428 | an event's key is read back as an event of its own job |
| `JobKeys.PrefixesKeepJobsApart` | internal/jobs/store.go:396-410 | no job's prefix matches another job's key |
| `JobStore.ObjectsExact` | internal/jobs/store.go:463-493 | a job's group holds its own objects, all of them, and no other job's |
| `JobStore.EventsCounted` | internal/jobs/store.go:486-488 | each event is listed as often as its key is, and nothing else is |
| `JobStore.IndexJobs` | internal/jobs/store.go:465-498 | the index has exactly the jobs mentioned, each with its objects, events sorted |
| `JobStore.SortSorts` | internal/jobs/store.go:494-496 | the sorted events are in key order |
| `JobStore.SortedByTime` | internal/jobs/store.go:494-496 | a job's sorted events are in the order they were received, those before 1970 first, undated and in reverse |
| `JobStore.JobKeysExact` | internal/jobs/store.go:467-493 | the key layout reads back exactly, as grouping and expiry require |
| `JobStore.NewestEvent` | internal/jobs/expiry.go:98-103 | the running maximum is the newest dated event, and absent iff none is dated |
| `JobStore.LastActivity` | internal/jobs/expiry.go:97-110 | the newest event, or failing any the readable creation time |
| `JobStore.DeleteJobObjects` | internal/jobs/store.go:600-615 | success iff every log object can be deleted, and then none is left; otherwise exactly those before the first failure are gone and the metadata stays; only the job's own objects are deleted |
| `JobStore.Reap` | internal/jobs/expiry.go:68-88 | only objects of expired jobs are deleted, and all of them if no delete fails |
| `JobStore.ReapableExactly` | internal/jobs/expiry.go:49-110 | when a job's objects expire, in the keys of the listing: its dated events are all before the cutoff, or it has none and its metadata says so |
| `JobStore.LiveEventKeepsJob` | internal/jobs/expiry.go:49-54 | a job with one event at or after the cutoff is not reaped |
| `Redact.RedactText` | internal/cook/variables.go:210-221 | no sensitive value is left if none can be laid over the placeholder; text without any is unchanged |
| `Redact.RedactNotes` | internal/cook/variables.go:226-235 | every note is redacted, in place and order |
| `Redact.RedactError` | internal/cook/variables.go:243-253 | the message is redacted; an error that had to change no longer wraps its cause |
| `Redact.RedactAllCleans` | internal/cook/variables.go:208-221 | for any order of the sensitive list none of its values is left |
| `Redact.UnlikePlaceholderRedactable` | internal/cook/variables.go:17-19 | values sharing no character with the placeholder meet the condition |
| `Redact.RedactableExactly` | internal/cook/variables.go:208-221 | for a single value the condition is exact: otherwise some text still shows it once redacted |
| `Redact.RedactableExactlyOnParts` | internal/cook/variables.go:59-73 | whichever of the values are set at the time and in whatever order, none is ever left in any text iff none can be laid over the placeholder |
| `Redact.PlaceholderPartSurvives` | internal/cook/variables.go:208-221 | for every list and order, a text that shows a part of the placeholder still does once redacted, even if that part is a sensitive value |
| `Redact.RedactAllKeepsOthers` | internal/cook/variables.go:208-221 | text without any sensitive value is left as it is |
| `Redact.RedactInTurn` | internal/cook/variables.go:214-219 | the values are replaced in the order of the list |
| `Redact.RedactOne` | internal/cook/variables.go:17-19 | what stands for a value, letter by letter; an empty value changes nothing |
| `Redact.ReplacementKeepsRest` | internal/cook/variables.go:218-218 | replacement touches nothing but the occurrences |

## Left out

- What a step does once launched (`cond`, secrets, registered variables, ingredients, `on_exit`): one outcome per step ID, the oracle. Variables registered by one step and read by another without a requisite between them could make an outcome depend on order; the results hold for outcomes that do not.
- The wall clock of a cook: `SproutCook.CookRecipeEnvelope` takes the number of completions received before the deadline instead.
- EndToEnd.StoredStatusIsRight: assumes unique step IDs that differ from the job's `start-`, `completed-` and `timeout-` IDs, as the farmer's validation and job IDs provide; the index tells events apart by those IDs.
- Rootball.HasCycle: assumes defined requisites, as its caller checks first; the source would stop at an undefined one.
- Recipe files: resolution, reading, rendering and parsing are one lookup, from a name to the names it includes or to nothing.
- Identifier lengths of the status index are counted in characters.
- Duplicate delivery of an event and database failures that are not retried: each event is upserted once and refreshed once.
- Redact.RedactableExactlyOnParts: exact over all parts of a list; for the one list in one order, a value that could be laid over the placeholder may still be removed by another one's redaction.
- Base64 decoding of box keys: whether a submitted key decodes is an input.
- Error texts, logging, summaries, the membership cache of cohorts, listing and loading of job contents, object storage and messaging themselves: they would only add easy members or belong to other systems.
