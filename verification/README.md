# Apulis platform: scheduler, storage walk, cluster accounting and deployment arithmetic

A Dafny model of the parts of the Apulis AI platform that decide something: which GPU jobs run, what happens to a
job afterwards, which parts of a storage tree are reported, and how the deployment scripts divide disks, subnets and
`/etc/fstab`. `dafny verify dfyconfig.toml` checks the whole project.

## What is modelled

**The job manager.** A round of `TakeJobActions` reads a table of virtual clusters (quota and unschedulable devices
per type, a quota per user) and the queued, scheduling and running jobs. It sorts the jobs by a formatted text key,
admits non-preemptible jobs in one loop and preemptible ones in a second, and turns the decisions into submit and
preempt tasks in a third.

- `Resources`, `Jobs`, `StableSort`, `SortKey`: the ledger of device counts as a class updated in place, the job row,
  Python's stable sort, and the key as text with the order it induces.
- `Admission`, `Demands`: the two passes and the single greedy pass on values, with feasibility, optimality and
  stability, and what the decisions mean in devices.
- `Scheduler`: the round as it runs, over an allocator object whose ledgers are updated in place, proved against
  `Admission`, including the lookups that can fail and abort the round. `RoundMeaning` says in terms of the rows what
  a round does.
- `JobPolls`, `Launcher`: what a status poll does to one job, what the two launcher tasks do to the table, and what
  holds over sequences of either.
- `Quota`: how free devices are divided among virtual clusters before a round.
- `Lifecycle`: whole runs of the cluster as a state machine over arrivals, approvals, polls, recounts of the limits,
  rounds, launcher tasks and user requests, and the safety of those runs.
- `Draining`, `NextRound`: the launcher working off one round in any order, and what the next round then does.
- `JobPriorities`: how priorities are set through the API, and that they reach the sort key in range.

**The storage manager.** `VisitedTree` defines the tree a walk visits and the boundary lists globally; `PathTree` is
the walk itself, one recursion over heap nodes that folds totals together and appends to four shared lists.

**The deployment scripts.** `Subnets` (with `Binary`) reduces a list of subnets to the widest; `Partitions` and
`Subvolumes` divide disks; `Fstab` splices a section into a file; `MountNames` turns paths into mount unit names.

**Cluster status and endpoints.** `ClusterStatus` keeps the running device totals over the nodes; `Endpoints` is the
protocol of the endpoint worker pool over every interleaving.

Results that differ from what the repository says of itself, or that hold only under a condition:

- Priorities order correctly as text exactly within 0..1000000, one more than six digits suggest. The API keeps those
  of existing jobs within 1..1000, but stores a priority for an unknown id unadjusted.
- A kill that meets cleanup errors is meant to set the status `error`, but encoding the list of errors raises, so the
  status stays as it was. One such kill can leave more active jobs than devices (`Lifecycle.KillErrorsOvercommit`);
  between a round and the end of its launcher tasks this can happen even without errors. Exactly when it cannot is
  `Draining.DrainWithinExactly`: if the active and the submitted jobs fit together, which can be checked after the
  round and before the launcher starts.
- A poll that raises before its last statement leaves the entry of an unusual job in the dictionary even if it found
  the job running, so a resubmission can follow a broken run (`JobPolls.RaisingPollOverlooked`). The run is unbroken
  exactly when no poll since the opening was overlooked in this way (`JobPolls.ResubmitRunExactly`).
- `.seconds` of a time difference drops whole days and turns a small step back of the clock into almost a day
  (`JobPolls.SecondsFieldWraps`). The run before a resubmission is long enough exactly when the clock is not before
  the opening.
- Splicing a section is undone by removing it exactly when the file is `Fstab.Clean`: with its newline it has at
  least two characters and no mark (a last line equal to a mark without its newline becomes one), and it does not
  contain the shell's error text for a missing file. The content must be free of that text as well.
- Every to-delete subtree lies in an expired one exactly when the root is not expired, or everything is older than
  the delete cutoff, or no visited leaf is.
- An end mark before the start mark makes both splicing operations repeat the lines between the two.
- A mount unit name can be decoded exactly when the path does not contain the text `\x2d` itself.
- Partition sizes are non-negative exactly when the capacity is, or nothing is shared in proportion.

## Model

| member | source | states |
|---|---|---|
| Resources.ResourceInfo.constructor | src/ClusterManager/ResourceInfo.py:4-7 | a new ledger holds the given counts |
| Resources.ResourceInfo.Add | src/ClusterManager/ResourceInfo.py:34-39 | the loop over the keys adds pointwise, absent keys counting as zero, also when a ledger is added to itself |
| Resources.ResourceInfo.CanSatisfy | src/ClusterManager/ResourceInfo.py:41-45 | true exactly when every positive request is present and covered |
| Resources.ResourceInfo.Subtract | src/ClusterManager/ResourceInfo.py:47-51 | only positive requests are taken, also when a ledger is taken from itself; fails exactly when one of them has no key |
| Resources.ResourceInfo.SubtractMinZero | src/ClusterManager/ResourceInfo.py:53-59 | as Subtract, with every requested key clamped at zero |
| Resources.ResourceInfo.GetMinValue | src/ClusterManager/ResourceInfo.py:64-68 | overwrites the ledger with the minimum over shared keys, also against itself |
| Resources.ResourceInfo.Difference | src/ClusterManager/ResourceInfo.py:12-17 | a fresh ledger with the difference; fails exactly on a missing key |
| Resources.ResourceInfo.DifferenceMinZero | src/ClusterManager/ResourceInfo.py:19-24 | a fresh ledger with the clamped difference; fails exactly on a missing key |
| Resources.GrantThenRelease | src/ClusterManager/ResourceInfo.py:34-51 | a granted request can always be charged, never drives a requested count negative, and adding it back restores the ledger |
| Resources.MeetTwice | src/ClusterManager/ResourceInfo.py:64-68 | repeating the in-place minimum changes nothing, and it is below both arguments |
| SortKey.KeyOrder | src/ClusterManager/job_manager.py:712-740 | for priorities in 0..1000000 character order of the keys is the promised order: non-preemptible before preemptible, running before scheduling before queued, higher priority (100 if none is recorded) before lower, earlier time before later |
| SortKey.KeySplit | src/ClusterManager/job_manager.py:718-735 | whatever the priorities, preemptible flag and status rank decide before the rest of the key |
| SortKey.KeyGroups | src/ClusterManager/job_manager.py:718-740 | sorted keys put non-preemptible jobs first, and within each group running, scheduling and queued ones in this order |
| SortKey.PaddedOrder | src/ClusterManager/job_manager.py:729-735 | the six-character padded numbers order as the numbers they write |
| SortKey.FixedOrder | src/ClusterManager/job_manager.py:735 | fixed-width decimals compare as numbers and differ for different numbers |
| SortKey.PriorityRangeExact | src/ClusterManager/job_manager.py:627-735 | all keys with priorities from an interval around the default 100 order as promised if and only if it lies within 0..1000000 |
| JobPriorities.AdjustPriority | src/utils/JobRestAPIUtils.py:55-67 | a requested priority is moved to the nearest end of the range its permission allows, and kept exactly if it lies in it |
| JobPriorities.UpdateJobPriorities | src/utils/JobRestAPIUtils.py:1903-1928 | one unauthorized job refuses the whole call; otherwise known jobs get their adjusted priority and unknown ids the requested one |
| JobPriorities.BoundedExactly | src/utils/JobRestAPIUtils.py:1907-1927 | updates and submissions keep the priorities of existing jobs within 1..1000; a new job does if and only if nothing out of range was stored for its id before |
| JobPriorities.UnknownJobUnadjusted | src/utils/JobRestAPIUtils.py:1910-1914 | a priority for an id that is not in the table is stored as requested |
| JobPriorities.BoundedOrder | src/ClusterManager/job_manager.py:712-740 | with such priorities a round never treats a job before one the comments of the source put first |
| SortKey.KeyOrderingTotal | src/ClusterManager/job_manager.py:740 | comparing keys is a total preorder, so the sort is well defined |
| SortKey.StrLessMeans | src/ClusterManager/job_manager.py:740 | a text comes before another exactly where they first differ by a smaller character, or it ends first |
| StableSort.SortSorts | src/ClusterManager/job_manager.py:740 | the sorted list is ordered and a permutation of the input |
| StableSort.InsertSplits | src/ClusterManager/job_manager.py:740 | a new element enters at one place, behind all elements not greater, and nothing else moves |
| StableSort.SortStable | src/ClusterManager/job_manager.py:740 | elements that compare equal keep their order |
| Admission.GreedyFits | src/ClusterManager/job_manager.py:748-779 | the accepted jobs fit every virtual cluster and every user quota |
| Admission.GreedyLexGreatest | src/ClusterManager/job_manager.py:748-779 | every other selection that fits is lexicographically smaller in sorted order |
| Admission.NoRejectedJobFits | src/ClusterManager/job_manager.py:748-779 | at the end no rejected job passes the test, and accepting it as well would not fit |
| Admission.LaterJobsDoNotMatter | src/ClusterManager/job_manager.py:748-779 | two lists that agree up to a position get the same decisions up to it |
| Admission.GreedyPrefix | src/ClusterManager/job_manager.py:748-779 | cutting the list leaves the earlier decisions unchanged |
| Admission.TwoPassIsGreedy | src/ClusterManager/job_manager.py:748-779 | with preemptible jobs last, the two loops decide exactly as one pass over the list |
| Demands.AcceptedWithinHeld | src/ClusterManager/job_manager.py:188-779 | the accepted jobs ask, in devices per worker times workers, for at most the total without the unschedulable devices of every virtual cluster and device type, and the non-preemptible ones of a user for at most the user quota, 9999 where none is set |
| Demands.DecidedExactly | src/ClusterManager/job_manager.py:748-779 | a job is accepted if and only if its virtual cluster exists and what it asks for is left there, and of its user's quota unless preemptible, beside the jobs accepted before it |
| Demands.RejectedHasNoRoom | src/ClusterManager/job_manager.py:748-779 | a rejected job whose virtual cluster exists exceeds one of the two beside all accepted jobs as well |
| Scheduler.Allocator.OpenUser | src/ClusterManager/job_manager.py:746 | the first look at a user copies every virtual cluster's quota for that user and touches nothing else |
| Scheduler.Allocator.ChargeAll | src/ClusterManager/job_manager.py:763-767 | a non-preemptible job is charged to its virtual cluster, its user's copy and the cluster, to nothing else; fails exactly on a device type missing from the cluster |
| Scheduler.BooksAfterAdmission | src/ClusterManager/job_manager.py:763-778 | charging an admitted job keeps every ledger equal to its limit minus the demand of the accepted jobs |
| Scheduler.FirstLoop | src/ClusterManager/job_manager.py:748-768 | marks exactly the jobs of missing virtual clusters, admits as the first pass, fails exactly when an admitted job's device type is missing |
| Scheduler.SecondLoop | src/ClusterManager/job_manager.py:770-779 | admits as the second pass, fails exactly when a preemptible job's virtual cluster is missing |
| Scheduler.ThirdLoop | src/ClusterManager/job_manager.py:783-804 | the submit, preempt and report actions in order; reports do not depend on earlier reports overwriting the same ledger |
| Scheduler.ReportStep | src/ClusterManager/job_manager.py:796-801 | each report shows the minimum of user quota left and virtual cluster left, however often it was shown before |
| Scheduler.OpenAll | src/ClusterManager/job_manager.py:659-685 | the ledgers start with the schedulable devices of every virtual cluster and the cluster's capacity less what is unschedulable; fails exactly if that subtraction meets an unlisted device type |
| Scheduler.TakeJobActions | src/ClusterManager/job_manager.py:634-806 | the outcome of a round: aborted by a failed lookup, or the marks and actions of the two-pass decision |
| Scheduler.RoundIsGreedy | src/ClusterManager/job_manager.py:718-779 | the sort makes the two loops of a round the single greedy pass over its order |
| Scheduler.RoundOrderPromised | src/ClusterManager/job_manager.py:712-740 | no job is treated before one that the comments of the source put first |
| Scheduler.NewJobKeepsEarlier | src/ClusterManager/job_manager.py:735-779 | one more job enters the order at one place and changes no decision before it |
| RoundMeaning.RoundTakes | src/ClusterManager/job_manager.py:691-738 | a round treats every queued, scheduling or running row exactly as often as it is listed, and no other |
| RoundMeaning.TiesAsListed | src/ClusterManager/job_manager.py:740 | rows that neither comes before the other are treated in the order they are listed |
| RoundMeaning.RoundDoes | src/ClusterManager/job_manager.py:748-804 | who is submitted, preempted, reported to and with which numbers, and marked with which status |
| RoundMeaning.RoundInOrder | src/ClusterManager/job_manager.py:748-804 | actions and marks follow the order of the jobs, each job giving at most one of either |
| RoundMeaning.AbortedExactly | src/ClusterManager/job_manager.py:668-779 | a round ends without actions if and only if the capacity lacks a device type that is unschedulable or asked for by an accepted non-preemptible job, or the virtual cluster of a preemptible job is missing |
| RoundMeaning.RowAfterStep | src/ClusterManager/job_manager.py:823-861 | how every step of a run other than a round changes the status of a row: approval, requests, polls and the launcher |
| RoundMeaning.RowAfterDecided | src/ClusterManager/job_manager.py:748-757 | a decided round changes the rows of its jobs whose virtual cluster is gone, and no other |
| JobPolls.CheckJobStatus | src/ClusterManager/job_manager.py:554-602 | completion first, then the worst status of any role; Running means every role runs or is a succeeded non-master |
| JobPolls.StatusManager.ApproveJob | src/ClusterManager/job_manager.py:204-287 | preemptible jobs are queued, others exactly if their virtual cluster is found, otherwise killed |
| JobPolls.StatusManager.TrackUnusual | src/ClusterManager/job_manager.py:492-513 | an unusual poll opens an entry, or deletes one whose seconds field exceeds 30 |
| JobPolls.StatusManager.AddAndGetRetries | src/ClusterManager/job_manager.py:444-446 | the counter goes up by the raises elsewhere and by one for a Restart that gets that far |
| JobPolls.StatusManager.UpdateJobStatus | src/ClusterManager/job_manager.py:293-550 | the whole effect of one poll on status, dictionary, counter and requested kill, however far it gets before an exception |
| JobPolls.PollOutcome | src/ClusterManager/job_manager.py:315-548 | result by result, which status a poll leaves, when it is error rather than queued, when it asks for a kill and into which status, and the counter after it |
| JobPolls.UnusualEntry | src/ClusterManager/job_manager.py:492-548 | over any sequence of polls, raising ones included, the dictionary holds exactly the stretches still open, with the time each was opened |
| JobPolls.ResubmitExactly | src/ClusterManager/job_manager.py:500-513 | a poll asks for a kill into queued if and only if it is unusual, a stretch is open, the seconds field since its opening exceeds 30, and nothing raises before the kill |
| JobPolls.ResubmitRunExactly | src/ClusterManager/job_manager.py:492-548 | at a resubmission, the run since the opening is unbroken if and only if no poll of it that was not unusual raised, and spans more than 30 seconds if and only if the clock is not before the opening |
| JobPolls.RaisingPollOverlooked | src/ClusterManager/job_manager.py:344-548 | a Running poll that raises leaves the entry, and the job is resubmitted although the run was broken |
| JobPolls.RaisingExpiryLosesKill | src/ClusterManager/job_manager.py:500-513 | a poll that raises between deleting the entry and the kill loses the resubmission |
| JobPolls.ResubmitOnlyAfterLongRun | src/ClusterManager/job_manager.py:492-548 | with a clock that never goes back and no poll overlooked, a resubmission follows an unbroken unusual run of more than 30 seconds |
| JobPolls.SecondsFieldWraps | src/ClusterManager/job_manager.py:500 | a run of exactly one day does not resubmit, a clock step of one microsecond back does |
| JobPolls.RequeuesBelowCounter | src/ClusterManager/job_manager.py:444-458 | polls that see Restart and leave the row queued are bounded by the growth of the counter and by what was left below 500 |
| JobPolls.FewerThan500Requeues | src/ClusterManager/job_manager.py:444-458 | over any sequence of polls fewer than 500 see Restart and leave the row queued |
| Launcher.PythonLauncher.SubmitJobImpl | src/ClusterManager/job_launcher.py:1002-1187 | the status a submission leaves: unchanged while pods remain, scheduling on success, error after five failures |
| Launcher.PythonLauncher.KillJobImpl | src/ClusterManager/job_launcher.py:1192-1240 | the desired status, or on errors an exception that leaves the status unchanged |
| Launcher.PythonLauncher.WaitTasksDone | src/ClusterManager/job_launcher.py:1242-1258 | when the queue has been worked off the table is that after all its tasks in order |
| Launcher.EachRowByItsTask | src/ClusterManager/job_launcher.py:1242-1258 | with one task per job each row depends on its own task alone, other rows are untouched |
| Launcher.OrderIrrelevant | src/ClusterManager/job_launcher.py:980-990 | the worker processes may take the tasks of a round in any order |
| Launcher.FailedSubmissions | src/ClusterManager/job_launcher.py:1162-1177 | submissions that keep raising leave the job queued up to the fourth count and in error from the fifth on |
| Launcher.LastSubmission | src/ClusterManager/job_launcher.py:1015-1160 | whatever went before, an invalid job ends in error, created pods in scheduling, and remaining pods change nothing |
| Draining.CarryOut | src/ClusterManager/job_launcher.py:989-1000 | putting a round's actions on the queue and waiting leaves an empty queue and the table after exactly their tasks |
| Draining.DrainIsWait | src/ClusterManager/job_launcher.py:1242-1258 | taking the tasks one by one in any order until none is left gives the table that waiting for the queue gives |
| Draining.DrainWithinExactly | src/ClusterManager/job_launcher.py:1002-1240 | from any state, the active jobs stay within the limits on every way through the tasks, kills with errors included, if and only if the active and the submitted jobs fit together |
| Lifecycle.SafeRuns | src/ClusterManager/job_manager.py:634-867 | in every run, whatever hardware comes and goes between rounds, whenever the launcher is drained any list of different scheduling and running jobs asks for no more devices than every virtual cluster can schedule and every user may use, and no round denies an active non-preemptible job |
| Lifecycle.StepKeepsInv | src/ClusterManager/job_manager.py:823-861 | every step keeps the demand of what will be active within the limits |
| Lifecycle.RunKeepsInv | src/ClusterManager/job_manager.py:823-861 | the same along whole runs |
| Lifecycle.RoundKeepsInv | src/ClusterManager/job_manager.py:834-840 | a round keeps it, whether it decides, aborts on a lookup or is interrupted among its marks |
| Lifecycle.RoundPlansAccepted | src/ClusterManager/job_manager.py:748-804 | after a decided round and its tasks only accepted jobs are active |
| Lifecycle.ActiveNotDenied | src/ClusterManager/job_manager.py:748-768 | in a drained state within its limits a round admits an active non-preemptible job if and only if its virtual cluster exists |
| Lifecycle.TotalIsDemand | src/ClusterManager/job_manager.py:748-779 | what a selection takes from a pool is the demand of the selected jobs in the table |
| Lifecycle.RecountKeepsInv | src/ClusterManager/job_manager.py:646-685 | recomputing the limits keeps the active jobs within them, however many free devices are left, unless a configured quota is cut below what is in use |
| Lifecycle.RecountedLimit | src/utils/quota.py:114-134 | the recomputed limit lies between the configured quota or the demand of the active jobs, whichever is less, and the quota |
| Lifecycle.RecountedShare | src/utils/quota.py:100-134 | after a recount a virtual cluster can schedule its configured devices, or those its active jobs ask for and its proportion of the free ones, whichever is less |
| Lifecycle.UsageIsDemand | src/ClusterManager/job_manager.py:643-653 | for requests that are not negative the counted usage of a virtual cluster is the demand of its active jobs |
| NextRound.NextRoundIdle | src/ClusterManager/job_manager.py:834-840 | after a decided round whose tasks all succeed, with nothing else happening, the next round decides without failing, submits and preempts nothing and changes nothing, whatever the priorities have become |
| NextRound.SameAccepted | src/ClusterManager/job_manager.py:712-779 | the next round accepts exactly the jobs the first one accepted |
| Lifecycle.KillErrorsOvercommit | src/ClusterManager/job_launcher.py:1227-1240 | a concrete run in which a submission before a kill, and a kill with errors, leave more active demand than devices; when this happens is Draining.DrainWithinExactly |
| Quota.RecountCoversUse | src/utils/quota.py:114-134 | a recount leaves each virtual cluster its quota or its use plus its free share, so jobs within quota are never undercut |
| Quota.GrantsBelowFree | src/utils/quota.py:89-134 | what all virtual clusters may hand out beyond their use comes to no more than the free devices |
| Quota.SchedulableExactly | src/utils/quota.py:100-134 | a virtual cluster may hand out its quota, or its use and its proportion of the free devices rounded down, whichever is less |
| Quota.EnoughForAll | src/utils/quota.py:104-112 | when the free devices reach the sum of the weights every virtual cluster gets its whole weight |
| Quota.NearlyAllGiven | src/utils/quota.py:104-112 | the proportions of all virtual clusters come to the free devices or the sum of the weights, whichever is less, up to a shortfall smaller than their number |
| VisitedTree.OverweightExactly | src/StorageManager/path_tree.py:116-124 | the overweight list holds exactly the overweight nodes without an overweight child |
| VisitedTree.OverweightAntichain | src/StorageManager/path_tree.py:116-124 | no listed node lies below another |
| VisitedTree.OverweightCovers | src/StorageManager/path_tree.py:116-124 | every overweight node has a listed one at or below it |
| VisitedTree.OverweightOnce | src/StorageManager/path_tree.py:116-124 | no node is listed twice |
| VisitedTree.MaximalExactly | src/StorageManager/path_tree.py:126-140 | the expired, to-delete and empty lists hold exactly the maximal subtrees all of whose nodes pass, and nothing under a root that passes |
| VisitedTree.MaximalDisjoint | src/StorageManager/path_tree.py:126-140 | the listed subtrees share no node |
| VisitedTree.MaximalCovers | src/StorageManager/path_tree.py:126-140 | every passing subtree lies in a listed one |
| VisitedTree.MaximalOnce | src/StorageManager/path_tree.py:126-140 | no subtree is listed twice |
| VisitedTree.SizeMonotone | src/StorageManager/path_tree.py:89-106 | a subtree is never larger than a tree containing it |
| VisitedTree.VisitedExactly | src/StorageManager/path_tree.py:53-114 | the walk makes a node of a path, kind and stat if and only if it can be reached through directories that have a stat and can be listed, by listed names, without a link |
| VisitedTree.NothingReached | src/StorageManager/path_tree.py:58-70 | the walk gives up on a directory if and only if nothing can be reached from it |
| VisitedTree.KidsExactly | src/StorageManager/path_tree.py:72-114 | the children of a visited directory are what the walk makes of each listed name |
| VisitedTree.NodesOnce | src/StorageManager/path_tree.py:83-114 | no node occurs twice among the nodes of a tree |
| VisitedTree.TotalsCount | src/StorageManager/path_tree.py:89-114 | the totals add up the sizes and count the files one by one |
| PathTree.PathNode.constructor | src/StorageManager/path_node.py:38-66 | a new node's fields are the totals of a single node |
| PathTree.PathNode.Absorb | src/StorageManager/path_tree.py:89-97 | folds one child's fields into its parent's in place |
| PathTree.AbsorbIsTotal | src/StorageManager/path_tree.py:83-114 | folding keeps size, times and counts equal to the sum or maximum over all nodes below |
| PathTree.TestsAgree | src/StorageManager/path_tree.py:126-140 | the local tests on the folded fields are tests on all nodes of the subtree |
| PathTree.Tree.constructor | src/StorageManager/path_tree.py:18-44 | the expiry and delete cutoffs, the delete cutoff lying the delete days before the expiry |
| PathTree.Tree.WalkDirs | src/StorageManager/path_tree.py:83-97 | walks the sub-directories, skips those that fail, folds and records the others |
| PathTree.Tree.WalkFiles | src/StorageManager/path_tree.py:99-114 | looks at the files, skips those whose stat fails |
| PathTree.Tree.BoundOverweight | src/StorageManager/path_tree.py:116-124 | appends exactly what the global definition adds for this directory |
| PathTree.Tree.BoundExpired | src/StorageManager/path_tree.py:126-135 | appends exactly the children that expire, and those to delete, under a directory that does not |
| PathTree.Tree.BoundEmpty | src/StorageManager/path_tree.py:137-140 | appends exactly the file-free children of a directory with files |
| PathTree.Tree.Walk | src/StorageManager/path_tree.py:53-142 | gives up exactly where stat or listing fails; otherwise every field is the total over exactly the visited nodes and each list grows by exactly the globally defined one |
| PathTree.DeleteWithinExpired | src/StorageManager/path_tree.py:28-35 | with non-negative delete days, to-delete subtrees lie in expired ones if and only if the root is not expired, or everything is older than the delete cutoff, or no visited leaf is; nothing in them is newer than the delete cutoff |
| PathTree.NothingListed | src/StorageManager/path_tree.py:126-140 | a list of maximal subtrees is empty if and only if all visited nodes pass its test or no visited leaf does |
| PathTree.VisitWellFormed | src/StorageManager/path_tree.py:53-114 | what a walk visits is a tree with unique paths |
| Subnets.RemainTest | src/ClusterBootstrap/utils.py:702-703 | the assertion on the host bits holds exactly for aligned addresses |
| Subnets.MaskRounds | src/ClusterBootstrap/utils.py:699-700 | masking rounds an address down to a multiple of the block |
| Subnets.CheckCoveredByIpvals | src/ClusterBootstrap/utils.py:705-709 | membership |
| Subnets.CheckCoveredByWiderIps | src/ClusterBootstrap/utils.py:711-718 | true exactly when some wider mask of the index holds the masked address |
| Subnets.MaskedMeansContains | src/ClusterBootstrap/utils.py:711-718 | for aligned subnets the masked comparison is containment of address sets |
| Subnets.NestedOrDisjoint | src/ClusterBootstrap/utils.py:711-718 | aligned subnets are nested or disjoint (section 3.1 of RFC 4632) |
| Subnets.KeepWidestSubnet | src/ClusterBootstrap/utils.py:720-736 | rejects exactly a misaligned subnet; otherwise keeps a sublist with nothing inside another, and everything dropped inside something kept |
| Subnets.Consider | src/ClusterBootstrap/utils.py:730-735 | one subnet is dropped or kept and indexed, also when what first covered it was itself dropped |
| Subnets.ReducedCover | src/ClusterBootstrap/utils.py:720-736 | the kept subnets cover exactly the addresses of the input, and two of them are the same address and mask or share no address, so that none is superfluous |
| Partitions.CalculatePartitions | src/ClusterBootstrap/deploy.py:2721-2740 | each size: absolute requests first come first served, proportions share what is left |
| Partitions.ServeAbsolute | src/ClusterBootstrap/deploy.py:2725-2733 | what the absolute requests get and leave |
| Partitions.SizesSum | src/ClusterBootstrap/deploy.py:2721-2740 | the sizes sum to the capacity if some proportion is positive, otherwise to the capacity or the requests, whichever is less |
| Partitions.SizesNonNegative | src/ClusterBootstrap/deploy.py:2721-2740 | no size is negative if and only if the capacity is not, or nothing is shared in proportion |
| Partitions.FirstServed | src/ClusterBootstrap/deploy.py:2725-2733 | an absolute request that gets less than it asks for leaves nothing for later ones or for proportions |
| Partitions.SharedFairly | src/ClusterBootstrap/deploy.py:2734-2739 | the proportional sizes are to each other as their proportions |
| Partitions.PercentRanges | src/ClusterBootstrap/deploy.py:2759-2772 | the emitted ranges run between consecutive boundaries; fails exactly on a total of zero |
| Partitions.BoundaryDrift | src/ClusterBootstrap/deploy.py:2764-2772 | interior boundary number i is within i/2 percent of the exact prefix share |
| Partitions.DriftIsTight | src/ClusterBootstrap/deploy.py:2764-2772 | eight equal partitions reach the bound at the seventh boundary |
| Partitions.BoundariesTile | src/ClusterBootstrap/deploy.py:2764-2772 | the ranges start at 0, end at 100 and never run backwards |
| Partitions.RepartitionDevice | src/ClusterBootstrap/deploy.py:2758-2772 | both steps together: when they divide by zero, and that the ranges tile 0..100 otherwise |
| Subvolumes.CountSubvolumes | src/ClusterBootstrap/deploy.py:3063-3066 | the loop ends with the least working count, which is the multiple divided by its greatest common divisor with the nodes |
| Subvolumes.LeastIsQuotient | src/ClusterBootstrap/deploy.py:3063-3066 | any least working count is that quotient |
| Subvolumes.LeastDivides | src/ClusterBootstrap/deploy.py:3063-3066 | the least working count divides every working count |
| Fstab.ReplaceInPlace | src/ClusterBootstrap/deploy.py:2281-2288 | an existing section is replaced, or removed, leaving everything around it |
| Fstab.RoundTripExactly | src/ClusterBootstrap/deploy.py:2273-2325 | removing after inserting restores the file if and only if the file is clean and the content free of the error text; inserting twice is inserting the second content if and only if that holds or both contain the error text |
| Fstab.CleanWorks | src/ClusterBootstrap/deploy.py:2273-2325 | both promises on clean files |
| Fstab.UncleanFails | src/ClusterBootstrap/deploy.py:2281-2293 | both fail on every other mark-free file |
| Fstab.ErrorContentFails | src/ClusterBootstrap/deploy.py:2281-2312 | content with the error text is never removed again, and overwritten as promised only in a file that had it as well |
| Fstab.SectionText | src/ClusterBootstrap/deploy.py:2275-2279 | the text of a section: start mark, content ended by a newline, end mark |
| Fstab.MissingFile | src/ClusterBootstrap/deploy.py:2280-2308 | a file that seems missing becomes just the section, and removal leaves it |
| Fstab.NoVisibleStart | src/ClusterBootstrap/deploy.py:2289-2293 | without a start mark past the first two characters the section is appended on a line of its own, and removal changes nothing |
| Fstab.StartOnly | src/ClusterBootstrap/deploy.py:2285-2314 | without an end mark everything from the start mark on is dropped |
| Fstab.EndFirst | src/ClusterBootstrap/deploy.py:2287-2316 | an end mark before the start mark makes the lines between them appear twice |
| Fstab.FindMarks | src/ClusterBootstrap/deploy.py:2282-2283 | both searches find the section's own marks |
| Fstab.NoStraddle | src/ClusterBootstrap/deploy.py:2282-2283 | no match of a mark straddles the join after a terminated text |
| MountNames.UnescapeExactly | src/ClusterBootstrap/deploy.py:79-80 | decoding undoes the escaping if and only if the text does not contain the escape sequence |
| MountNames.NamesDistinct | src/ClusterBootstrap/deploy.py:73-81 | paths without the escape sequence get different names unless equal up to one leading and one trailing slash |
| MountNames.BackslashFree | src/ClusterBootstrap/deploy.py:73-81 | backslash-free paths never contain it |
| MountNames.EscapeCollides | src/ClusterBootstrap/deploy.py:73-81 | every path with the sequence shares its name with a path that differs by more than slashes at the ends |
| MountNames.StripExactly | src/ClusterBootstrap/deploy.py:74-78 | stripping fails on the empty path and a lone slash, otherwise it takes off one slash at either end and nothing else |
| MountNames.NameExactly | src/ClusterBootstrap/deploy.py:73-81 | the name spells the stripped path character by character |
| ClusterStatus.GetClusterStatus | src/ClusterManager/node_manager.py:245-270 | the totals and details over all nodes if and only if no node uses or allocates a device type it does not list |
| ClusterStatus.Totals.AddNode | src/ClusterManager/node_manager.py:251-270 | one node's contribution to every total and to the details |
| ClusterStatus.Totals.AddUnschedulableNode | src/ClusterManager/node_manager.py:252-254 | an unschedulable node's capacity is unschedulable, what is unused reserved |
| ClusterStatus.Totals.AddSchedulableNode | src/ClusterManager/node_manager.py:261-263 | a schedulable node's unused allocatable devices are available, the rest of its capacity reserved |
| ClusterStatus.TotalsBalance | src/ClusterManager/node_manager.py:251-270 | available, used and reserved sum to capacity plus exactly the excess use on schedulable nodes |
| ClusterStatus.BalanceExactly | src/ClusterManager/node_manager.py:251-270 | they sum to the capacity if and only if no schedulable node over-uses its devices |
| ClusterStatus.DetailsBalance | src/ClusterManager/node_manager.py:255-268 | per mapped device type the node details sum to the reported available count and capacity |
| ClusterStatus.TotalsExactly | src/ClusterManager/node_manager.py:251-270 | capacity and use are the sums over all nodes; unschedulable is the capacity without what schedulable nodes may allocate, reserved the part of it that unschedulable nodes do not use |
| ClusterStatus.DetailsExactly | src/ClusterManager/node_manager.py:255-268 | the details of a mapped type are one line per node of the type, in order, with its capacity and what it may still allocate |
| Endpoints.StepKeepsInv | src/ClusterManager/endpoint_manager.py:328-346 | every step of the main loop, a worker or a callback keeps dictionary and open workers in agreement |
| Endpoints.OneWorkerPerJob | src/ClusterManager/endpoint_manager.py:338-343 | in every interleaving at most one worker per job is in flight |
| Endpoints.CallbackClearsOwnEntry | src/ClusterManager/endpoint_manager.py:328-331 | a callback removes its own worker's entry and no other |
| Endpoints.NoStaleEntry | src/ClusterManager/endpoint_manager.py:328-343 | every entry belongs to a worker whose callback is still to run |
| Endpoints.FinishedIsCleared | src/ClusterManager/endpoint_manager.py:341-343 | a finished worker's entry is removed, also when it finished before its callback was attached |
| Endpoints.LookedAtInFlight | src/ClusterManager/endpoint_manager.py:338-343 | a job the loop has looked at has a worker in flight, a new one exactly if it had none |
| Endpoints.StartsAll | src/ClusterManager/endpoint_manager.py:338-345 | the loop can reach the end of its list with every pending job in the dictionary |
| Endpoints.WorkersClear | src/ClusterManager/endpoint_manager.py:328-343 | every worker can finish and be cleared, and no other job's entry goes with it |

## Left out

- Kubernetes, SQL, SSH, REST and redis calls, and rendering, encoding and notification: they are parameters or outcomes of steps. Each status write is one atomic step; races of unconditional writes between processes are not modelled.
- Floating point: partition sizes and percentages are exact reals, the division of free devices is exact integer arithmetic.
- `Partitions.BoundaryDrift`: over exact reals, so a share that rounding in binary floating point moves across a half percent is not seen.
- `Quota.GrantsBelowFree`: the weights are inputs; how unschedulable devices are spread over the virtual clusters before (src/utils/quota.py, `caculate_unschedulable`) is not modelled.
- `ResourceInfo.GetFraction`: it has no caller in the modelled code.
- The per-user dictionaries of a round are one dictionary keyed by virtual cluster and user; the log lines and the unused per-device detail table are left out.
- `JobPolls.StatusManager.UpdateJobStatus`: the running-time limit and the image pull state arrive as booleans, details and timestamps of the row are not modelled.
- `Launcher.PythonLauncher.SubmitJobImpl`: how pods are built is one outcome (pods remain, invalid, raised with its counter, created).
- `Lifecycle.SafeRuns`: runs with kills that meet errors are excluded, as `Lifecycle.KillErrorsOvercommit` shows they must be; a configured quota may not be cut below what active jobs use, requests of active jobs are not negative at a recount, and no quota is configured for the device type "any" that stands for a missing one.
- `Scheduler.TakeJobActions`: reading the tables and decoding job rows come before; exceptions of the database calls in between are not outcomes of the method, but `Lifecycle` allows a round to be interrupted by them.
- `Quota.RecountCoversUse`: the weights are inputs here as well; the statement holds for any.
- `Partitions.SizesSum`: the sums are over exact reals.
- `Subnets.KeepWidestSubnet`: reading addresses and masks from text is not modelled; the sort key of the source takes the last two characters, so masks are taken as written with two digits.
- `PathTree.Tree.Walk`: `subtree_time` is not propagated by the walk and nothing is said of it; owners and uids are left out.
- `ClusterStatus.GetClusterStatus`: collecting nodes and pods, the device mapping and the per-user totals come before; the branch for device information nodes calls a method the ledger does not have.
- `Endpoints.FinishedIsCleared`: setting up an endpoint itself, and the thread pool's own scheduling, are not modelled; that the enabled steps are eventually taken is not stated.
- `Partitions.RepartitionDevice`: the text of the parted commands and the removal of old partitions are left out.
- Pod templates, storage mount points, log pagination, REST models, dashboards and Azure command builders: easy claims or input and output only.
