# jhlava: verified models of the batch system's stateful cores

jhlava is a batch scheduler. A master daemon (mbatchd) keeps users' jobs, decides when they may start, and logs what
happens. This project models the parts of it whose correctness rests on invariants over whole runs, and proves those:

- **Dependency conditions.** A job may wait for a condition over other jobs. A two-stack parser turns the condition
  into a tree (`DepTree`, `DepParser`, `DepMachine`), and a short-circuiting evaluator with cached node values decides
  it (`DepLeaf`, `DepEval`, `DepNode`); `DepStatus` says what each kind of leaf means. `DepReading` gives a grammar of
  conditions, what the parser really makes of each, and exactly when that is the reading by the usual precedence;
  `DepValues` says when a misreading shows.
- **User groups.** Recursive membership tests, counts and expansions over nested groups (`GroupGraph`, `GroupCounts`),
  and the work-list passes that fill each user's ancestor and descendant sets (`GroupClosure`), groups that stand for
  all users included (`GroupAll`).
- **The event-log lock.** A lock file between master daemons, as a system of steps (`EventLock`).
- **Job arrays.** Index lists and job ids (`JobIndex`), lists of array elements (`JobArray`), the reference-counted
  record that the elements of an array share (`JobShare`), and the counters of jobs by status up the tree of job groups
  (`JobCounts`).
- **Job history.** The events of a job in order of time, and the accounting of its time by state (`JobHistory`).
- **Fair share.** The counters of a share tree, and the descent to the next user to serve (`FairShare`).
- **Smaller tables.** Checkpoint variables mirrored in a file (`CheckpointVars`), proxy lists with a pool of spare
  entries (`ProxyLists`), and requeue tables that end in a sentinel (`Requeue`).

Where the source updates things in place, the model is a class or a method with loops, proved against functions on
values; the properties of those functions are lemmas.

## What became a parameter, and what is assumed

- Dependency conditions start from tokens whose jobs are already looked up. An evaluation is given the jobs, the
  group counters and the state of each time window (`Env`).
- `preceTable` has an entry for each of `&&`, `||` and `!`, but the parser also looks up the rank of an open
  parenthesis, which lies behind the table. The model takes that rank as the lowest (`DepTree.Rank`).
- Group graphs have no cycles, members that are users are not groups, and the work list is as long as needed. What it
  needs is stated: `TraverseGroupTree` uses `Unrolled` slots, against `MAX_GROUPS` in the source.
- Lock: looking at the file and opening it is one step, so is taking the lock and recording its owner; each write
  gives the file a new modification time; `kill(pid, 0)` fails exactly for processes that are gone; process ids are
  not reused. Which host is master is told with each poll.
- Job history: the clock is a parameter, and so is the value the status variable has before the first event. The
  source leaves it uninitialised for the first job listed, and never resets it, so that every other job starts with the
  last status of the job listed before.
- Exit-value lists start from words already cut and converted.

## Where the code differs from what one would expect

The model follows the code. Each of these is stated exactly:

- `x && y && z || w` is not read by precedence, because an arriving operator sets off at most one reduction
  (`LongConjunctionMisread`, `MisreadChangesValue`). The tree is the standard one exactly if every arriving operator
  finds at most one pending operator that binds tighter (`StandardExactlyWhenOrderly`), or, put on the condition as
  written, exactly if it is `Plain` (`StandardExactlyWhenPlain`). Without repeated leaves, a misread condition is True
  for the wrong leaves exactly if it is not `Mild` (`RightTruthExactly`), and has a wrong value for some exactly if it is
  not `Mild`, or shows a place where it cannot be Invalid and should (`Hides`, `RightValueExactly`). A repeated leaf can
  make a misreading harmless (`RepetitionHides`).
- Input outside the grammar is accepted: an unmatched open parenthesis between two operands
  (`UnmatchedOpenAccepted`), a connective behind its operands (`PostfixAccepted`). A token sequence is accepted exactly
  if each token finds its operands, counted from the tokens before it, and the operands outnumber what joins them by one
  (`AcceptedExactly`).
- A job-array leaf that selects no element keeps the value it had, and exactly then does that value matter
  (`CacheMattersExactly`).
- A holder of the event lock that does not touch the file is robbed of the lock while it goes on (`SilentHolderRobbed`).
  There is one holder at all times exactly if no stale takeover hits a process that holds (`SafeExactlyWithoutRobbery`).
- A job that ended as a zombie and was requeued has the time in between counted twice (`ZombieCountedTwice`), and a
  first event without a status takes on that of the job listed before, which can lose its time
  (`StaleStatusLosesTime`). Exactly when it does not is stated (`UnfinishedAddsUpExactly`), and what the buckets add up
  to for every history (`BucketsAddUp`).
- A checkpoint variable can be written that cannot be read back (`QuoteDoesNotComeBack`). The mirror survives a write
  exactly if the variable is `Good` (`WriteMirrorsExactly`).
- The counters of a subtree are added to those above it without the one for statuses of no kind, so those go wrong
  exactly if the subtree has such a status (`AttachExactly`).
- A group of users stays active after its last pending job is started, and can be chosen before a user with pending jobs
  (`IdleGroupChosen`). The leaf chosen has pending jobs exactly if some sibling of it is active (`WinnerActiveExactly`).
- A user in two subgroups is counted once above them (`SharedUserMiscounted`). A group's counters keep adding up exactly
  if its descendant table agrees with the leaves (`AddsUpExactly`).
- A new proxy entry goes behind the first one ahead of it, not the last, and so can jump ahead (`LaterJobJumpsAhead`).
  A user's list of started jobs, and the list of slot-reserving jobs, stays in order exactly if the job belongs right
  behind the first entry (`StartedInOrderExactly`, `PlacedInOrderExactly`).
- An array's id from 2^31 up comes back negative from a packed job id (`PackUnpack`).
- The size of an array is summed up in 32 bits, so a long list of ranges can be accepted that is too big
  (`OverflowAccepted`). A list is accepted exactly as it should be if its size fits (`FitsExactly`), and it does with up to
  2^15 ranges (`ShortListsFit`). An open range gets as many indices as allowed exactly if its end does not wrap around
  (`ResolvedExactly`).
- A group above one that stands for all users has them all below it and is nobody's ancestor for that
  (`AboveAllNotAncestor`). What both kinds of sets hold is stated (`GroupAll.SetuDataCreate`).
- A new array without a new index has no element to file its counters under (`HandleNewJobArray`).

## Model

| member | source | states |
|---|---|---|
| DepParser.RunConserves | lsbatch/daemons/mbd.dep.c:133-168 | over every run and every token sequence, the operand stack spells exactly the operands read, in order; each operator read is on one of the stacks, except that each `)` used up one `(` |
| DepParser.ParseConserves | lsbatch/daemons/mbd.dep.c:469-498 | a condition that parses gives a tree with exactly the named leaves in order and one node per operator read |
| DepParser.MergeTopKeeps | lsbatch/daemons/mbd.dep.c:907-957 | a reduction neither loses nor reorders leaves, nor loses operators |
| DepParser.MergeLeftKeeps | lsbatch/daemons/mbd.dep.c:907-957 | reducing back to `(` keeps the leaves and takes one `(` off |
| DepParser.MergeAllKeeps | lsbatch/daemons/mbd.dep.c:907-957 | the final reduction keeps leaves and operators |
| DepParser.CreateMoreNodesPushesOne | lsbatch/daemons/mbd.dep.c:1278-1312 | an operand that names n jobs never fails to merge, adds one tree, and leaves the operator stack alone |
| DepParser.ChainKeeps | lsbatch/daemons/mbd.dep.c:1278-1312 | that tree has the n leaves in order and n - 1 conjunctions |
| DepReading.ParserReads | lsbatch/daemons/mbd.dep.c:139-168 | from any stacks whose top does not react, the tokens of any condition of the grammar settle to the one tree `Read` gives, with nothing below touched |
| DepReading.ParseReads | lsbatch/daemons/mbd.dep.c:139-168 | every condition of the grammar parses, and to exactly `Read` |
| DepReading.StandardExactlyWhenPlain | lsbatch/daemons/mbd.dep.c:144-155 | what the parser reads is the standard reading if and only if the condition is plain, at every nesting level |
| DepReading.StandardExactlyWhenOrderly | lsbatch/daemons/mbd.dep.c:139-168 | the parse is the standard tree if and only if during the run each arriving operator finds at most one pending operator of higher rank at its level |
| DepReading.OrderlyExactlyWhenPlainIn | lsbatch/daemons/mbd.dep.c:139-168 | the same condition on the run and on the written form agree, from any quiet stacks |
| DepReading.TokensUnique | lsbatch/daemons/mbd.dep.c:139-168 | the grammar is unambiguous: a token sequence is written by at most one condition |
| DepReading.RoundTrip | lsbatch/daemons/mbd.dep.c:469-488 | any and/or/not tree, printed fully parenthesised and parsed, comes back as its mirror image |
| DepReading.ReparseIsStable | lsbatch/daemons/mbd.dep.c:928-930 | printing the mirror image of what was parsed and parsing again gives the same tree, for every condition |
| DepReading.LongConjunctionMisread | lsbatch/daemons/mbd.dep.c:144-155 | a conjunction of three followed by a disjunction, `x and y and z or w`, becomes `x and ((y and z) or w)`, which is not the standard tree |
| DepParser.AcceptedExactly | lsbatch/daemons/mbd.dep.c:469-498 | whatever the tokens, a tree comes out if and only if each token finds the operands of the reductions it sets off, and each `)` its `(`, as counted on the tokens before; and operands and closing parentheses outnumber binary connectives and open parentheses by exactly one |
| DepParser.RunExactly | lsbatch/daemons/mbd.dep.c:139-168 | the run gets to the end if and only if that holds of each token, and the operator stack is then what the operator tokens alone make it |
| DepParser.RunBalances | lsbatch/daemons/mbd.dep.c:139-168 | every run changes the trees still to be expected by exactly what its tokens weigh |
| DepParser.MergeAllBalances | lsbatch/daemons/mbd.dep.c:907-957 | the final reduction ends in one tree and no operator exactly if one tree was to be expected |
| DepReading.PostfixAccepted | lsbatch/daemons/mbd.dep.c:469-488 | a connective behind its two operands parses as if it stood between them |
| DepReading.UnmatchedOpenAccepted | lsbatch/daemons/mbd.dep.c:469-488 | an unmatched `(` between two operands parses as a binary node |
| DepMachine.Parser.PopOperator | lsbatch/daemons/mbd.dep.c:991-997 | takes the top node off and leaves the rest; the node is in nobody's tree any more |
| DepMachine.Parser.PopOperand | lsbatch/daemons/mbd.dep.c:991-997 | takes the top tree off, disjoint from everything left |
| DepMachine.Parser.MergeTop | lsbatch/daemons/mbd.dep.c:907-932 | links nodes in place as the reduction of the abstract stacks says; on failure what was popped is pushed back and both stacks are as before |
| DepMachine.Parser.MergeLeft | lsbatch/daemons/mbd.dep.c:934-948 | fails exactly if the abstract reduction does, else has its result; terminates since each success shrinks the operator stack |
| DepMachine.Parser.MergeAll | lsbatch/daemons/mbd.dep.c:907-957 | reduces as long as possible, as the abstract reduction does |
| DepMachine.Parser.CreateMoreNodes | lsbatch/daemons/mbd.dep.c:1278-1312 | the loop over further jobs has the abstract result and only adds new nodes |
| DepMachine.Parser.Take | lsbatch/daemons/mbd.dep.c:139-168 | one token on the linked stacks refines one abstract step, failure included |
| DepMachine.ParseDepCond | lsbatch/daemons/mbd.dep.c:133-168 | returns no tree exactly if the abstract parse fails; else a fresh, unshared tree with exactly the parsed shape and all values reset |
| DepEval.WalkDecides | lsbatch/daemons/mbd.dep.c:616-677 | the walk over array elements gives True exactly if all selected elements meet the condition, otherwise the class of the first that does not; the cached value if none is selected |
| DepEval.CacheMattersExactly | lsbatch/daemons/mbd.dep.c:616-677 | the result is independent of the cached value if and only if something is selected |
| DepEval.LeafRefines | lsbatch/daemons/mbd.dep.c:547-677 | every leaf evaluates to its meaning, independent of its cached value, and never to reject |
| DepEval.FirstFailing | lsbatch/daemons/mbd.dep.c:616-677 | the index is the first selected element that does not meet the condition |
| DepStatus.TrueExactly | lsbatch/daemons/mbd.dep.c:1419-1496 | when a leaf about a single job evaluates to True, for done, exit, ended, started, post_done and post_err each, by status bits, last run, exit code and times |
| DepStatus.InvalidExactly | lsbatch/daemons/mbd.dep.c:628-648 | otherwise it is Invalid if and only if the job is void, or over with no post-processing to wait for |
| DepStatus.ArrayExactly | lsbatch/daemons/mbd.dep.c:563-677 | a leaf about an array: which elements count, and that the leaf is True exactly if each of them is by itself, else has the value of the first that is not |
| DepStatus.FirstNotTrue | lsbatch/daemons/mbd.dep.c:616-677 | the value of the first job that is not True by itself |
| DepStatus.ElementwiseExactly | lsbatch/daemons/mbd.dep.c:571-581 | an element-by-element leaf has the value of the element with the index of the dependent job |
| DepStatus.ElementStandsIn | lsbatch/daemons/mbd.dep.c:582-608 | if the job table has no such element, the first one named with that index counts, or else the last one named |
| DepStatus.ElementGone | lsbatch/daemons/mbd.dep.c:582-608 | and without an index list the leaf is Invalid |
| DepStatus.CountExactly | lsbatch/daemons/mbd.dep.c:682-719 | a counter leaf compares the number of jobs that are pending, held, running, exited, done, started or ended with the number given, or with the number of all jobs |
| DepStatus.AllOfThem | lsbatch/daemons/mbd.dep.c:705-714 | with no number given, equality holds exactly if there are jobs and each is one asked for |
| DepStatus.OtherwiseExactly | lsbatch/daemons/mbd.dep.c:553-561 | a leaf without a job or group is Invalid; a window is True exactly while it is open |
| DepStatus.GroupGone | lsbatch/daemons/mbd.dep.c:699-704 | a group that is gone makes the leaf Invalid, then and at every later evaluation |
| DepEval.EvalRefinesMeaning | lsbatch/daemons/mbd.dep.c:500-725 | short-circuit evaluation with caching equals the pure meaning: minimum for and, maximum for or, on invalid < false < true, and negation |
| DepEval.NeverRejects | lsbatch/daemons/mbd.dep.c:500-725 | no evaluation ever leaves a reject value in a tree, selecting leaves or not |
| DepEval.DenoteMirror | lsbatch/daemons/mbd.dep.c:928-930 | mirrored operands never change the value |
| DepEval.HistoryDoesNotMatter | lsbatch/daemons/mbd.dep.c:500-725 | after any sequence of earlier evaluations, in changing circumstances, with leaves that selected nothing and groups dying on the way, a tree whose leaves select something now evaluates to its present meaning |
| DepEval.ChainValue | lsbatch/daemons/mbd.dep.c:1278-1312 | an operand of several jobs is worth the conjunction of them all |
| DepEval.StdValue | lsbatch/daemons/mbd.dep.c:139-168 | the standard tree is worth what the written condition says by precedence |
| DepEval.PlainMeansWhatItSays | lsbatch/daemons/mbd.dep.c:139-168 | every plain condition parses to a tree worth what the condition says |
| DepEval.MisreadChangesValue | lsbatch/daemons/mbd.dep.c:144-155 | the misread condition can be False where the written one is True |
| DepEval.TripleNotHarmless | lsbatch/daemons/mbd.dep.c:144-155 | three negations before a disjunction are misread as a tree and still have the right value in every case |
| DepValues.RightTruthExactly | lsbatch/daemons/mbd.dep.c:139-168 | for conditions whose factors share no leaf: the parsed tree is True for the same leaf values as the condition if and only if the condition is mild, that is plain but for an odd number of negations before a connective |
| DepValues.RightValueExactly | lsbatch/daemons/mbd.dep.c:500-546 | and it has the same value for all leaf values without reject if and only if, besides, no place shows where the parsed tree cannot be Invalid and the condition can |
| DepValues.TellApart | lsbatch/daemons/mbd.dep.c:144-155 | for every such condition that is not mild, truth values of its leaves on which the parsed tree and the written condition differ, all other leaves left alone |
| DepValues.MildIsTrue | lsbatch/daemons/mbd.dep.c:139-168 | a mild condition is True as parsed exactly if it is as written, repeated leaves or not |
| DepValues.HidesExactly | lsbatch/daemons/mbd.dep.c:500-546 | for a mild condition, both readings are Invalid for the same leaves if and only if the odd places are hidden |
| DepValues.RepetitionHides | lsbatch/daemons/mbd.dep.c:144-155 | with a repeated leaf a condition that is not mild can have its usual value |
| DepEval.ConditionEvaluates | lsbatch/daemons/mbd.dep.c:500-725 | end to end: evaluating the parsed tree of a plain condition gives the value of the written condition over the leaf meanings |
| DepNode.DptNode.EvalDepCond | lsbatch/daemons/mbd.dep.c:500-725 | the recursive evaluator on linked nodes leaves exactly the tree the value-level evaluation gives, values and dropped groups included |
| DepNode.DptNode.EvalOr | lsbatch/daemons/mbd.dep.c:507-523 | or, with the right side left alone if the left decides |
| DepNode.DptNode.EvalAnd | lsbatch/daemons/mbd.dep.c:524-535 | and, with the right side left alone if the left decides |
| DepNode.DptNode.EvalNot | lsbatch/daemons/mbd.dep.c:537-545 | negation of the one operand |
| DepNode.DptNode.EvalLeafNode | lsbatch/daemons/mbd.dep.c:547-719 | leaves: job walk, window, group counters; a group that is gone is dropped |
| GroupGraph.GMemberExactly | lsbatch/daemons/mbd.grp.c:391-442 | the recursive test is true if and only if some group reachable from it lists the word, or has neither members nor subgroups |
| GroupGraph.EverybodyExactly | lsbatch/daemons/mbd.grp.c:391-442 | every word whatever is a member if and only if such an empty group is reachable |
| GroupGraph.FlattenExactly | lsbatch/daemons/mbd.grp.c:343-367 | the expansion lists exactly the direct members of reachable groups |
| GroupGraph.HasEmptyExactly | lsbatch/daemons/mbd.grp.c:252-275 | the recursion meets an empty group exactly if one is reachable |
| GroupGraph.FlattenNonEmpty | lsbatch/daemons/mbd.grp.c:343-367 | without empty groups the expansion lists somebody |
| GroupGraph.MemberIsReach | lsbatch/daemons/mbd.grp.c:391-442 | a user is a member exactly if the group reaches the user or an empty group; and is in the expansion exactly if the group reaches the user |
| GroupCounts.Counters.SumMembers | lsbatch/daemons/mbd.grp.c:252-275 | recursively: 0 exactly if an empty group is reachable, else the number of expanded members added to the static counter; otherwise direct members and subgroups |
| GroupCounts.Counters.CountEntries | lsbatch/daemons/mbd.grp.c:445-461 | the number of expanded members, added to the static counter |
| GroupCounts.Counters.FillMembers | lsbatch/daemons/mbd.grp.c:343-367 | writes exactly the expanded members, in order, to exactly as many slots, and nothing else |
| GroupCounts.Counters.ExpandGrp | lsbatch/daemons/mbd.grp.c:325-342 | the table holds exactly the expanded members, or the group's own name if there are none; count and fill agree |
| GroupClosure.UserTable.VisitGroup | lsbatch/daemons/mbd.grp.c:667-746 | links what is directly below a group, hands the group's ancestors down, and queues each subgroup |
| GroupClosure.UserTable.QueueAll | lsbatch/daemons/mbd.grp.c:647-746 | the first pass queues one entry for every path, and leaves sound sets and complete ancestors below the root |
| GroupClosure.UserTable.MergeBack | lsbatch/daemons/mbd.grp.c:748-764 | the backward pass makes every queued group's descendants complete, although shared subgroups come up several times |
| GroupClosure.UserTable.TraverseGroupTree | lsbatch/daemons/mbd.grp.c:647-764 | one root: all groups reachable from it become exact, those that were stay so; uses exactly as many queue slots as the unrolled tree has groups |
| GroupClosure.ClosureExact | lsbatch/daemons/mbd.grp.c:647-764 | descendant and ancestor sets are reachability, each the inverse of the other |
| GroupClosure.UserTable.TraverseAll | lsbatch/daemons/mbd.grp.c:588-594 | after all passes, for every covered group: descendants are exactly what it reaches, ancestors exactly what reaches, children and parents exactly the direct links |
| GroupAll.ReachWithAll | lsbatch/daemons/mbd.grp.c:517-529 | with the set of all users put below the groups that stand for them, a group reaches what it did, and all users exactly if it is or reaches such a group |
| GroupAll.AddAllGroups | lsbatch/daemons/mbd.grp.c:597-612 | the second loop adds the groups that stand for all users to exactly the users without flags that have parents |
| GroupAll.SetuDataCreate | lsbatch/daemons/mbd.grp.c:582-650 | with groups that stand for all users: exactly who is among the descendants of each group and the ancestors of each user after both loops |
| GroupAll.InverseWithoutAll | lsbatch/daemons/mbd.grp.c:582-650 | without such groups the two are inverse |
| GroupAll.AboveAllNotAncestor | lsbatch/daemons/mbd.grp.c:582-650 | a group above such a group has every user among its descendants and is an ancestor of none |
| GroupClosure.VisitWeight | lsbatch/daemons/mbd.grp.c:667-746 | visiting a queued group turns its unrolled size into itself and its queued subgroups, so the work list ends |
| EventLock.SafeExactlyWithoutRobbery | lsbatch/daemons/elock.c:60-195 | in every run of any number of daemons: at all times at most one live process holds and the file names it, if and only if no stale takeover hits a holder |
| EventLock.TimelyNeverRobbed | lsbatch/daemons/elock.c:141-187 | if a holder touches the file within any six polls of a waiter, no takeover hits it |
| EventLock.TimelyRunsAreSafe | lsbatch/daemons/elock.c:60-300 | so in every timely run, at every moment, no two processes hold the lock, and the file names the one that does |
| EventLock.SafeStep | lsbatch/daemons/elock.c:60-300 | each step except a robbery keeps one holder, named in the file |
| EventLock.TidyStep | lsbatch/daemons/elock.c:60-300 | every step, takeovers included, keeps the bookkeeping of owners, counters and time stamps |
| EventLock.WaitedSince | lsbatch/daemons/elock.c:141-187 | a waiter's counter is the number of its polls since a moment from which the file, if its time stamp is the remembered one, has not changed |
| EventLock.OnlyHolderRemoves | lsbatch/daemons/elock.c:197-217 | the file disappears exactly when a process dies that took the lock itself, and in safe states it is the one named in the file |
| EventLock.ForkedCopiesNeverHold | lsbatch/daemons/elock.c:35-58 | from its fork on, in every run, a forked copy never counts as the holder |
| EventLock.AcquiredWithinSeven | lsbatch/daemons/elock.c:60-195 | in any run: a process that wants the lock and stays up and master while nobody else holds it has it after at most seven of its opens and polls, whether there is a lock file or not |
| EventLock.AloneWithinSeven | lsbatch/daemons/elock.c:60-195 | from every tidy state, whatever the file says: a process that wants the lock can always take its next step, and by itself holds the lock after at most seven of them |
| EventLock.FreeLockTaken | lsbatch/daemons/elock.c:164-166 | without a lock file, a waiting master polls, goes back, opens and holds; both steps are possible and nobody else is affected |
| EventLock.OpenTakesExactly | lsbatch/daemons/elock.c:78-138 | opening gives the lock at once if and only if there is no file or it names a dead process of the same host; otherwise the file is left alone and the process waits from the time stamp it saw |
| EventLock.BecomesHolderExactly | lsbatch/daemons/elock.c:78-187 | at any step a process becomes the holder if and only if it opens such a file, or polls as master and finds the file unchanged for the sixth time |
| EventLock.StaysHolderExactly | lsbatch/daemons/elock.c:60-300 | and stops being the holder exactly when it stops running |
| EventLock.PossibleExactly | lsbatch/daemons/elock.c:60-300 | when each step is possible; a process can touch the file if and only if it is the holder |
| EventLock.TouchRefreshes | lsbatch/daemons/elock.c:228-300 | a touch by the holder is always possible, keeps the owner, and gives the file a time stamp that no waiter remembers |
| EventLock.LiveExactly | lsbatch/daemons/elock.c:60-300 | at any step: processes come by being started or forked, and go by crashing, dying, polling when they are not master, or touching a missing file, and in no other way |
| EventLock.GoneWasStopped | lsbatch/daemons/elock.c:60-300 | so in every run a process that is gone has been stopped in one of these ways |
| EventLock.FileLeftAlone | lsbatch/daemons/elock.c:60-300 | while a process wants the lock and nobody else holds it, nobody else changes the file |
| EventLock.SilentHolderRobbed | lsbatch/daemons/elock.c:170-176 | there is a run at whose end two processes hold the lock |
| JobIndex.CountExactly | lsbatch/daemons/mbd.jarray.c:359-375 | counting by steps visits exactly the indices in bounds that leave no remainder |
| JobIndex.CountLength | lsbatch/daemons/mbd.jarray.c:99-102 | and as many as the division says |
| JobIndex.InIdxListExactly | lsbatch/daemons/mbd.jarray.c:359-375 | the arithmetic test holds exactly for the indices the enumeration of the whole list visits |
| JobIndex.CheckIndexList | lsbatch/daemons/mbd.jarray.c:80-112 | a parsed list is accepted exactly if every range, open ends resolved in 32 bits, is forward and in bounds and the length of the enumeration, in 32 bits, is no more than allowed; forward ranges are only ever too big, and nothing is too big in a replay |
| JobIndex.FitsExactly | lsbatch/daemons/mbd.jarray.c:80-112 | that is what should be accepted, if the exact length fits 32 bits |
| JobIndex.ShortListsFit | lsbatch/daemons/mbd.jarray.c:99-104 | it does for up to 2^15 ranges in bounds |
| JobIndex.OverflowAccepted | lsbatch/daemons/mbd.jarray.c:99-104 | a list of a few more ranges that is accepted whatever the limit |
| JobIndex.ResolvedExactly | lsbatch/daemons/mbd.jarray.c:86-88 | an open range gets exactly as many indices as allowed if and only if its end does not wrap around |
| JobIndex.PackUnpack | lsbatch/lsbatch.h:605-614 | the index comes back from the packed job id if and only if it has no more than 16 bits, and the array's id if and only if it is below 2^31; a larger one comes back negative |
| JobIndex.PackInjective | lsbatch/lsbatch.h:605-614 | packed job ids are equal exactly if both parts are |
| JobIndex.AcceptedIdsUnpack | lsbatch/daemons/mbd.jarray.c:80-112 | every index of an accepted list is in bounds and unpacks exactly, with the array's id if and only if that is below 2^31 |
| JobArray.FirstVisitsExactly | lsbatch/daemons/mbd.jarray.c:446-464 | exactly the visited elements not known before, each once; none exactly if all are known |
| JobArray.FirstVisitsOrder | lsbatch/daemons/mbd.jarray.c:446-464 | in the order of their first visit |
| JobArray.IdTable.Add | lsbatch/daemons/mbd.jarray.c:446-464 | adds an id unless it is there, in an array that grows without losing anything |
| JobArray.GetJobIdList | lsbatch/daemons/mbd.jarray.c:416-468 | for any overlapping ranges, each enumerated id once, in order of first visit; without an index list the job itself; nothing exactly if the job id is not positive |
| JobShare.SplitExact | lsbatch/daemons/mbd.jarray.c:169-182 | moving a job to a record of its own keeps all counts exact |
| JobShare.AddExact | lsbatch/daemons/mbd.jarray.c:275-334 | counting a new holder keeps all counts exact |
| JobShare.Jobs.LocalizeJobElement | lsbatch/daemons/mbd.jarray.c:114-182 | a job whose record is shared gets a new one that says the same, with the same tree parsed anew; counts stay exact, no other job moves; else nothing changes |
| JobShare.Jobs.LocalizeJobArray | lsbatch/daemons/mbd.jarray.c:151-165 | no element is left on the head's record, even when the loop stops early; all counts exact, all contents kept, no other job moved |
| JobShare.Jobs.HandleNewJobArray | lsbatch/daemons/mbd.jarray.c:247-336 | the chain has one job per distinct new index in order of first visit, all share one record with an exact count and the tree of its condition, and nothing else changed; if and only if some index is new, the counters are set, and say how many elements have each kind of status |
| JobCounts.IndexExactly | lsbatch/daemons/mbd.jgrp.c:971-1002 | the counter of a status is that of its kind, flags aside |
| JobCounts.UpdateCounted | lsbatch/daemons/mbd.jgrp.c:938-968 | counters that say how many jobs there are of each kind go on saying so when a job comes, goes or changes its status |
| JobCounts.UpdJgrpCountByJStatus | lsbatch/daemons/mbd.jgrp.c:938-968 | the walk up the tree updates every group and array above a job once, and no other node |
| JobCounts.ChangeStatus | lsbatch/daemons/mbd.jgrp.c:938-968 | if the counters of all nodes of the tree are right, they are right after any change of any job |
| JobCounts.UpdJgrpCountByOp | lsbatch/daemons/mbd.jgrp.c:1005-1021 | adds the counters of a subtree to those of all groups above it, or takes them off |
| JobCounts.AttachExactly | lsbatch/daemons/mbd.jgrp.c:1005-1021 | that leaves the counters above right if and only if every status in the subtree is of some kind |
| JobCounts.ClipExactly | lsbatch/daemons/mbd.jgrp.c:1005-1021 | and so when the subtree is taken away |
| JobCounts.UniformCounted | lsbatch/daemons/mbd.jarray.c:332-333 | the two counters set for a new array are right for jobs of one status |
| JobCounts.AddUpExactly | lsbatch/daemons/mbd.jgrp.c:971-1002 | the counters of the kinds add up to the number of jobs if and only if every status is of some kind |
| JobShare.ArrayHolders | lsbatch/daemons/mbd.jarray.c:247-336 | the record of a new array has exactly the head and the elements as holders |
| JobHistory.JobRecord.AddEvent | lsbatch/bhist/read.event.c:89-173 | the list stays in order of time with the tail on it; which events are refused, what is cut off when the log is read on, and which flags and times change |
| JobHistory.RefusedExactly | lsbatch/bhist/read.event.c:127-152 | earlier events are refused and later ones are not; at the same time a queue switch exactly after another, migrations, checkpoints and signals never, others exactly if they say the same |
| JobHistory.JobRecord.AddEvents | lsbatch/bhist/read.event.c:89-173 | reading a log keeps exactly `Collected` of it |
| JobHistory.CollectedExactly | lsbatch/bhist/read.event.c:89-173 | what is kept of a log is in order of time, and is the whole log if and only if no event would be refused after the one before it |
| JobHistory.DisplayHist | lsbatch/bhist/bhist.c:819-1024 | the loop, with its look-ahead over queue switches and its carried time stamp, leaves in each bucket exactly the time after events whose status in force is the bucket's |
| JobHistory.BucketsExactly | lsbatch/bhist/bhist.c:932-993 | for every history: which statuses each of the six buckets sums up, with what came before, what comes after and the reasons of an end taken into account |
| JobHistory.BucketsAddUp | lsbatch/bhist/bhist.c:819-1024 | for every history the buckets add up to the time since the first event that is not a queue switch, plus exactly what is counted more or less than once |
| JobHistory.UnfinishedAddsUp | lsbatch/bhist/bhist.c:819-1024 | with only unfinished states they add up to that time exactly, whatever job was listed before, if the first event has a status |
| JobHistory.UnfinishedAddsUpExactly | lsbatch/bhist/bhist.c:819-1024 | whatever status the job listed before left behind: unfinished states without zombies add up if and only if each statusless event at the head is counted once or takes no time |
| JobHistory.StaleStatusLosesTime | lsbatch/bhist/bhist.c:932-934 | after a job that is done, a job with one statusless event has all its time lost |
| JobHistory.FinishedAddsUp | lsbatch/bhist/bhist.c:819-1024 | with a plain end they add up to the time until the end, whatever job was listed before, if the first event has a status |
| JobHistory.ZombieCountedTwice | lsbatch/bhist/bhist.c:819-1024 | an exit as a zombie followed by another event has its time counted twice |
| JobHistory.ChargeTotal | lsbatch/bhist/bhist.c:932-993 | each interval goes to no bucket, one or two, as its class says |
| FairShare.TotalsKept | lsbatch/daemons/mbd.fairshare.c:27-55 | running plus pending jobs stay the same at every node below |
| FairShare.LeavesMove | lsbatch/daemons/mbd.fairshare.c:27-55 | the leaves below move exactly as often as the user occurs |
| FairShare.AddsUpExactly | lsbatch/daemons/mbd.fairshare.c:27-55 | counters that add up go on adding up if and only if nothing moves or every group's table agrees with its leaves |
| FairShare.SharedUserMiscounted | lsbatch/daemons/mbd.fairshare.c:27-55 | a group with the same user in two subgroups adds up before a change and not after it |
| FairShare.SoundIsListed | lsbatch/daemons/mbd.fairshare.c:27-55 | unique leaves and exact tables make them agree |
| FairShare.GNode.Traverse | lsbatch/daemons/mbd.fairshare.c:57-65 | the traversal in post-order changes the linked nodes in place to exactly the changed tree, and links none anew |
| FairShare.GNode.ChangeNodeJobNum | lsbatch/daemons/mbd.fairshare.c:27-55 | one node, leaf or group |
| FairShare.ChangeJobNumOfUser | lsbatch/daemons/mbd.fairshare.c:57-65 | totals stay, sound trees go on adding up, and priorities and activity stay right |
| FairShare.PricedKept | lsbatch/daemons/ugtree.c:19-30 | every node goes on having the priority of its share and its jobs: the share per running job if active |
| FairShare.ActivityKept | lsbatch/daemons/mbd.fairshare.c:27-55 | active leaves go on having pending jobs; a change ends the activity of exactly the user's leaves that have none left, and of no group |
| FairShare.Compete | lsbatch/daemons/mbd.fairshare.c:131-149 | ends at a leaf on a path that always takes the first sibling of greatest priority; none only for an empty tree |
| FairShare.ChoiceIsFair | lsbatch/daemons/mbd.fairshare.c:131-149 | if some sibling is active the one chosen is, and no active one has more share per running job |
| FairShare.WinnerActiveExactly | lsbatch/daemons/mbd.fairshare.c:131-149 | the leaf chosen is active, and has pending jobs, if and only if some sibling of it is active |
| FairShare.IdleGroupChosen | lsbatch/daemons/mbd.fairshare.c:44-50 | after its last pending job is started a group can be chosen again, and a user with nothing pending before one with pending jobs |
| CheckpointVars.ParseLineExactly | chkpnt/echkpnt.env.c:210-243 | a line yields a variable if and only if it begins with a letter and the variable, its value in quotes |
| CheckpointVars.ParseLineOfLine | chkpnt/echkpnt.env.c:194-259 | a written line parses back to the variable |
| CheckpointVars.FillAppend | chkpnt/echkpnt.env.c:194-259 | reading a file of whole lines with more behind it is reading one, then the other |
| CheckpointVars.FillPrint | chkpnt/echkpnt.env.c:282-320 | a table of good variables, written out, reads back as itself |
| CheckpointVars.FillGood | chkpnt/echkpnt.env.c:194-259 | a file of lines that fit only ever yields good variables with different names |
| CheckpointVars.LongLineFails | chkpnt/echkpnt.env.c:194-259 | a line too long for the buffer makes reading fail |
| CheckpointVars.WriteMirrorsExactly | chkpnt/echkpnt.env.c:169-190 | from a mirrored state, a write on any of the three paths leaves a file that reads back as the table if and only if the variable is good |
| CheckpointVars.QuoteDoesNotComeBack | chkpnt/echkpnt.env.c:169-190 | a value with a quote in it, written to an empty file, does not read back |
| CheckpointVars.WritesMirror | chkpnt/echkpnt.env.c:169-190 | across any sequence of good writes the file reads back as exactly the table |
| CheckpointVars.FileRemembers | chkpnt/echkpnt.env.c:169-190 | after any sequence of good writes the file reads back with, for every variable, the value last written or else the one from before, and nothing else; old entries keep their order |
| CheckpointVars.LastLineCounts | chkpnt/echkpnt.env.c:194-259 | of several lines for a variable the last one counts |
| CheckpointVars.InsertExactly | chkpnt/echkpnt.env.c:323-407 | writing a variable gives it its new value, changes no other variable and not their order, and adds an entry exactly if the name is new |
| CheckpointVars.VarTable.GetEchkpntVar | chkpnt/echkpnt.env.c:148-163 | the value of the variable in the table |
| CheckpointVars.VarTable.InsertVarToTable | chkpnt/echkpnt.env.c:323-407 | the new table, and which of new, changed and unchanged it was |
| CheckpointVars.VarTable.UpdateVarToFile | chkpnt/echkpnt.env.c:282-320 | the file is the table written out, if its name is known |
| CheckpointVars.VarTable.WriteEchkpntVar | chkpnt/echkpnt.env.c:169-190 | table and file after a write, which reaches the table alone if the file name is forgotten; when it fails; a good write keeps the mirror, and no other variable changes |
| CheckpointVars.VarTable.FillTable | chkpnt/echkpnt.env.c:194-259 | reads the file line by line through a buffer into the table, or fails with an empty table and the file name forgotten |
| ProxyLists.AheadOrders | lsbatch/daemons/mbd.proxy.c:542-600 | pending jobs with different ids are strictly and totally ordered; exactly when two started jobs are each ahead of the other |
| ProxyLists.AheadByKey | lsbatch/daemons/mbd.proxy.c:542-600 | jobs go by queue priority, greatest first, then submission or start time, then id; a job without a start time by id alone |
| ProxyLists.PlacedInOrderExactly | lsbatch/daemons/mbd.proxy.c:396-430 | in an ordered list of slot-reserving jobs a new job lands in order if and only if the list is empty or the job belongs right behind the first |
| ProxyLists.StartedInOrderExactly | lsbatch/daemons/mbd.proxy.c:27-71 | the same of a user's list of started jobs that all have a start time |
| ProxyLists.LaterJobJumpsAhead | lsbatch/daemons/mbd.proxy.c:27-71 | in either order, a job behind two others is put between them, out of order |
| ProxyLists.Proxies.Create | lsbatch/daemons/mbd.proxy.c:489-518 | takes the first spare entry, or a new one; it is on no list and not spare |
| ProxyLists.Proxies.Destroy | lsbatch/daemons/mbd.proxy.c:521-531 | the entry becomes the last spare one unless there are 64 already |
| ProxyLists.Proxies.Enter | lsbatch/daemons/mbd.proxy.c:27-71 | through any run the users' lists hold exactly the started jobs and no entry is in two places; the new one is placed behind the first ahead |
| ProxyLists.Proxies.Leave | lsbatch/daemons/mbd.proxy.c:74-113 | exactly the first entry about the job goes, if the job was started, whatever became of its priority and times since; the lists hold exactly the started jobs again |
| ProxyLists.LeaveFinds | lsbatch/daemons/mbd.proxy.c:74-113 | a job is found on its user's list exactly if it is started, and the first entry about it is the one found |
| ProxyLists.PlaceKeeps | lsbatch/daemons/mbd.proxy.c:27-71 | placing an entry adds its job and keeps entries different |
| Requeue.LookupIsFirstListing | lsbatch/daemons/mbd.requeue.c:91-121 | an exit value is looked up with the mode that was in force where it was first listed, or not found if it never was |
| Requeue.LookupExactly | lsbatch/daemons/mbd.requeue.c:29-67 | a value is excluded if and only if its first listing stands behind an opening of the exclusion list not closed before it; normal if not; not found if and only if it is not listed |
| Requeue.ErrorExactly | lsbatch/daemons/mbd.requeue.c:29-67 | an error is reported exactly if a number is no exit value or repeats an earlier one |
| Requeue.ExitTable.RequeueEParse | lsbatch/daemons/mbd.requeue.c:29-67 | the table holds what the words list, with the sentinel behind it inside the array, cut to size |
| Requeue.ExitTable.FillStruct | lsbatch/daemons/mbd.requeue.c:90-110 | adds a value unless it is there; the sentinel stays inside the array across doublings |
| Requeue.ExitTable.MatchExitValue | lsbatch/daemons/mbd.requeue.c:113-121 | the walk stops at the sentinel with the kind of the value or -1 |
| Requeue.RecordsCount | lsbatch/daemons/mbd.requeue.c:123-150 | after any sequence of calls hosts are different and each is counted as often as it was called for |
| Requeue.History.FillRequeueHist | lsbatch/daemons/mbd.requeue.c:123-150 | the array holds exactly those records and the sentinel behind them; returns where the host is, counted |

## Left out

- `getToken` and `matchJobs`: scanning a condition and looking up its jobs; conditions start as tokens.
- Time windows (`checkWindow`): a window leaf is a given truth value.
- Growth of the parser stacks, freeing of nodes, and the reference counts of job index lists.
- SetuDataCreate: does not model the observers that put users created later into the sets, because they work through callbacks of the bitset library; `users` are the users there are when the sets are built.
- QueueAll: does not model the fixed size of the work array; the number of slots used is stated instead.
- Lock: the check mode of the daemon, changes of user id, failures of `open`, `stat` and `write`, and lock files with damaged contents.
- CheckIndexList: takes positive steps only, as the grammar in lsf/intlib/idx.y:90-107 makes sure.
- PackUnpack: states the packing with multiplication and addition in place of shift and bit-or, for ids below 2^32 and indices below 2^31.
- HandleNewJobArray: does not model what happens after the null link is followed; queue accounts, the job limit and logging are not modelled.
- ChangeStatus: nodes keep their place in the tree; linking and unlinking of nodes is not modelled, only what it does to the counters.
- LocalizeJobElement: does not model resource requirements, which are parsed again like the condition; names in a condition are taken to stand for the same jobs as before.
- `offArray` and removal of elements from a chain.
- DisplayHist: does not model printing, the chronicle list or the search by time; all events are selected.
- ChangeJobNumOfUser: how trees are built from configuration is not part of this model.
- Checkpoint files: characters of value zero, failures to open or rename a file, and copying of files.
- Proxy lists per host have the same mechanism as the users' lists and are not modelled; of the list of slot-reserving jobs only where an entry is placed. A job that leaves before its user ever had a list is answered with false, where the source would follow a null list.
- Failures of memory allocation everywhere.
- Serialisation (daemons.xdr.c, mbd.comm.c), commands, mail, authentication, jhtools and preemption.
