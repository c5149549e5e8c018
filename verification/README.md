# Verified model of the Forge AI SDK's core algorithms

The SDK runs LLM agents. This project models the parts of it that are algorithms in their own right
and proves what they are for:

- **The plan scheduler.** A plan is a dependency graph of steps. The structural check searches it for
  cycles by depth-first search; the executor runs it in waves of goroutines; the strategy replans a
  bounded number of times when execution fails. What the planner and the steps' executors answer is an input. `WaveScheduler` is a state machine over every
  interleaving of the goroutines of a wave, and `PlanExecution` is the executor itself on heap objects,
  proved to take one of these interleavings. The check and the executor meet in `PlanSoundness`: a
  failure-free run returns nil, all steps Completed, exactly when the plan is empty or the check raises
  no issue. Its waves are the stages of the least fixed point of readiness.
- **Admission control.** The circuit breaker with any number of calls in flight, two token buckets and
  the windowed limiter, each a class proved against a step function, with theorems about whole histories.
- **Text and trees.** The workflow condition evaluator, proved to compute the meaning of every printed
  syntax tree, down to what operands stand for and how they compare; the bracket and string closers for
  partial JSON and the whole repair around them, proved against a definition of nesting that mentions no
  stack; the enumeration of completed paths over shared backing arrays; the chunker.
- **Selection and coherence.** Three history pruners, the write-through plan cache, two load balancers.

Objects the code updates in place are classes, slices it edits in place are arrays, and its loops are
loops. Each method is tied to a specification function or predicate, and what the code promises is then
proved about that specification over all inputs, histories or interleavings.

## What the proofs say about the code

Where the code does not do what its documentation, its names or its usual reading promise, there is a
failing input and the exact condition under which the promise holds.

- The verdict of the structural check is a score, not the issue list: at the default threshold 0.7 it
  accepts plans with dangling dependencies (`DanglingPlanAccepted`; exactly when: `DefaultVerdict`).
  The issue list is the guarantee (`NoIssuesIff`, `CleanIffNil`).
- The empty plan is executed with success although the check raises an issue (`EmptyPlanReturnsNil`); it
  is the only plan on which the two part (`CleanIffNil`).
- A deep copy of a plan still shares what step results and metadata values refer to. So a caller can
  change a stored plan through a loaded one (`ChangeLoaded`). Plan and copy share exactly these cells and
  so are separate exactly when there are none (`SeparateIff`); a change short of one of these cells never
  crosses over (`CopyKeepsView`), and a change of any of them always does (`ChangeCell`).
- A negative `maxReplanAttempts` makes `Execute` report Completed without executing anything, whenever
  there is a plan. For all other values Completed means every step of the last plan is Completed.
- `and` binds less tightly than `or`, and a leading negation scopes over everything to its right.
  `AndSplitsFirst` and `OrGroupsFirst` say exactly when that agrees with the usual precedence.
- "not NOT x" loses a negation, so it means what it says exactly when x is an error (`DoubleNotIff`).
- A "not " in any other mixture of cases at the head of a text recurses for ever (`MixedNotIsEndless`);
  evaluation of a text that holds none ends (`EvaluationEnds`).
- A lone quote character read as a value crashes the evaluator, and nothing else does
  (`ResolveCrashesIff`). Quoted text is not kept together, so an ordinary comparison of x with ' or '
  crashes (`QuotedOrCrashes`). A printed condition without a lone quote among its operands does not crash
  (`OnlyLoneQuotesCrash`), nor does any text without quote characters (`UnquotedNeverCrashes`).
- A zero counts as true unless it is a Go `int` (`ToBoolIff`), and so does every number written in a
  condition (`NumbersAreTruthy`).
- The limiter called sliding counts in fixed windows. Over one window length it grants up to twice the
  limit, and beyond that what calls for negative amounts put back, into the window before or in between.
  `IntervalBound` is that bound for all calls, `BoundIsReached` reaches it within a quarter of the window
  whatever is put back, and `TwiceTheLimit` gives twice the limit where no negative amount is asked for.
- A refused call changes the limiter exactly when it opens a window (`RefusedChangesNothingIff`), and
  then its key is granted nothing for the whole of that window, short of a reset or a negative amount
  (`RefusedCallShutsOut`).
- A call for a negative amount can overfill a token bucket: the first call on a key does so exactly when
  its amount is negative (`FirstCallOverfillsIff`), and an amount is safe for every bucket in range exactly
  when it is not (`SafeAmountIff`). Likewise the burst bound of capacity and
  accrual holds up to what is put back (`BurstBound`), which can be taken again at once (`PutBackIsTakenAgain`).
- Circuit breaker thresholds below one behave as one.
- The suffix that closes partial JSON works exactly when the text does not end in the middle of an
  escape. Cutting an incomplete key off a text cuts at the key's closing quote, so what the main repair
  then tries never nests and the fallback decides (`CandidateNestsIff`, `CutKeyFallsBack`).

## Model

| member | source | states |
|---|---|---|
| DependencyGraph.StageIsDepth | plan.go:132-200 | A step is in the k-th stage of the fixed point of readiness exactly when no dependency path of k edges leaves it and none of its paths reaches a missing ID |
| DependencyGraph.GroundedIff | plan.go:132-200 | A step is in some stage exactly when it depends on neither a cycle nor a missing ID, and then already in the stage numbered by the count of steps |
| DependencyGraph.AllGroundedIff | plan_verification.go:157-177 | Every step can become ready exactly when the graph is acyclic and has no dangling dependency |
| DependencyGraph.LongPathMeetsCycle | plan_verification.go:308-347 | A dependency path with as many edges as there are steps meets a cycle unless it leaves the graph |
| PlanModel.GraphEntry | plan_verification.go:310-313 | With unique step IDs the adjacency list gives each step its own dependencies |
| PlanVerification.CycleSearch.HasCycle | plan_verification.go:319-336 | The recursive search with shared visited and recStack maps terminates; true means a cycle exists, false means the node and all it reaches are finished in dependency order |
| PlanVerification.LeaveNode | plan_verification.go:334-336 | Clearing recStack on the way out keeps the maps in step with the stack of nodes under exploration and the finished nodes |
| PlanVerification.StackCycle | plan_verification.go:327-330 | A dependency already on the recursion stack closes a cycle |
| PlanVerification.OrderedCoverAcyclic | plan_verification.go:338-347 | A graph whose nodes can all be listed dependencies first has no cycle |
| PlanVerification.CheckCircularDependencies | plan_verification.go:308-347 | Returns true exactly when some step ID has a non-empty dependency path back to itself, for every graph, self-loops and dangling IDs included |
| PlanVerification.FindInvalidDependencies | plan_verification.go:164-177 | One issue per dangling dependency, in order, each costing 0.1 |
| PlanVerification.CountOrphans | plan_verification.go:187-192 | Counts the steps nothing depends on that are not last |
| PlanVerification.VerifyPlanStructure | plan_verification.go:137-211 | The report's verdict, score, issues and orphan count are those of the specified report |
| PlanVerification.ScoreIs | plan_verification.go:150-204 | The score is 1, or 0.2 with a cycle, less 0.1 for each dangling dependency and 0.05 for each orphan, but not below zero, and the verdict compares it with the threshold; dangling dependencies and orphans are sets of places defined without the loops |
| PlanVerification.InvalidCounted | plan_verification.go:164-177 | There is one issue for each place at which a dependency names no step |
| PlanVerification.InvalidListed | plan_verification.go:164-177 | The issues are exactly those naming a step and one of its dependencies that is no step |
| PlanVerification.OrphansCounted | plan_verification.go:187-192 | The orphans counted are the steps that no step depends on and whose index is below the last |
| PlanVerification.NoIssuesIff | plan_verification.go:150-177 | For every plan, duplicate step IDs included, the issue list is empty exactly when the plan is non-empty and acyclic and each dependency is a step |
| PlanVerification.DepsKnownIff | plan_verification.go:164-177 | With unique step IDs, each dependency is a step exactly when the graph has no dangling dependency |
| PlanVerification.DefaultVerdict | plan_verification.go:57-59 | At threshold 0.7 the verdict is valid exactly for non-empty acyclic plans in which twice the dangling dependencies plus the orphans, as sets of places, is at most six |
| PlanVerification.DanglingPlanAccepted | plan_verification.go:204 | A plan with a dangling dependency that the verdict accepts |
| WaveScheduler.RunsAreSafe | plan_execute_strategy.go:273-347 | In every state of every interleaving, failures included: a step that left Pending was started once and has all dependencies Completed, only goroutines at work have Running steps, and the result matches whether a step failed |
| WaveScheduler.ReturnedCleanly | plan_execute_strategy.go:283-301 | On return no step is Running, and the result is nil exactly when every step is Completed |
| WaveScheduler.RunLength | plan_execute_strategy.go:280-346 | No interleaving is longer than four actions per Pending step plus two |
| WaveScheduler.NeverStuck | plan_execute_strategy.go:280-346 | Until it has returned the executor has an action to take that is not a failure |
| WaveScheduler.Finishes | plan_execute_strategy.go:280-346 | Every run continues, without a further failure, to one that returns |
| WaveScheduler.WaveBound | plan_execute_strategy.go:280-335 | There are at most as many waves as Pending steps |
| WaveScheduler.WavesStayApart | plan_execute_strategy.go:280-335 | Waves are non-empty and disjoint, and drawn from the steps that were Pending |
| WaveScheduler.RunsAreStaged | plan_execute_strategy.go:280-335 | In a failure-free run the steps completed and in progress are those of the stages of readiness, wave by wave |
| WaveScheduler.WaveIsLongestChain | plan_execute_strategy.go:280-335 | Wave k of a failure-free run holds exactly the steps whose longest dependency chain has k edges |
| WaveScheduler.WaveCountIsLongestChain | plan_execute_strategy.go:280-335 | The number of waves is the number of nodes on the longest chain that can complete |
| WaveScheduler.CompletedIffGrounded | plan_execute_strategy.go:283-301 | A finished failure-free run has Completed exactly the steps that depend on neither a cycle nor a missing ID; the others are still Pending |
| WaveScheduler.NilIffWellFormed | plan_execute_strategy.go:273-347 | Every finished failure-free interleaving returns nil exactly when the plan is acyclic and has no dangling dependency |
| WaveScheduler.IllFormedNeverNil | plan_execute_strategy.go:273-347 | With failures too, a nil return implies an acyclic plan without dangling dependency |
| WaveScheduler.FailureSticks | plan_execute_strategy.go:338-345 | A step that failed in a run stays Failed, whatever else is still running |
| PlanSoundness.CleanIffNil | plan_execute_strategy.go:273-347 | For a plan not begun, every finished failure-free interleaving returns nil, with all steps Completed, exactly when the plan is empty or the structural check's issue list is |
| PlanSoundness.EmptyPlanReturnsNil | plan_execute_strategy.go:283-297 | On the empty plan the executor returns nil at once while the check raises an issue |
| PlanSoundness.NilMeansClean | plan_execute_strategy.go:273-347 | With failing steps too, a nil return means that the plan is empty or the issue list is |
| PlanSoundness.CleanPlanCompletes | plan_execute_strategy.go:280-346 | From every state a failure-free interleaving of a plan without issues reaches, the run continues to one of bounded length that returns nil with all steps Completed |
| PlanExecution.CanExecuteStep | plan.go:132-144 | True exactly for a Pending step all of whose dependencies are marked completed |
| PlanExecution.GetPendingSteps | plan.go:184-200 | Returns exactly the ready steps of the state the plan shows, each once and in the order of the plan |
| PlanExecution.StartStep | plan_execute_strategy.go:357-358 | Marking the looked-up step Running and stamping its start is the state machine's Start of that step; nothing else in the slice of steps changes |
| PlanExecution.FinishStep | plan_execute_strategy.go:404-429 | Marking it Completed with its result or Failed with its error, as the answer to it has it, is the state machine's Finish; nothing else in the slice of steps changes |
| PlanExecution.ExecuteWave | plan_execute_strategy.go:303-345 | One goroutine for each listed step, run in any order, is a run of the state machine up to the join; reports whether a step failed |
| PlanExecution.ExecutePlan | plan_execute_strategy.go:273-347 | For every answer to every step: terminates; the result and the final statuses are those of one interleaving of the state machine in which steps finish as answered; each step done holds its answer; nil exactly when every step is Completed; IDs and dependencies unchanged |
| PlanExecution.WellAnswered | plan_execute_strategy.go:273-347 | With an answer to every step that is a result, a plan not begun ends with all steps Completed exactly when it has no cycle and no dangling dependency |
| Replanning.StepIDsDistinct | plan_store.go:324-326 | Step IDs generated for one plan never collide |
| Text.DecimalReads | plan_store.go:324-326 | The number in an ID is decimal notation: digits without a leading zero that read as the number |
| Replanning.ParsePlan | plan_execute_strategy.go:762-788 | The plan has Version 1 and no parent, and its steps are Pending, uniquely and successively named, and have the descriptions, tools and dependencies of the answer |
| Replanning.PlanExecuteStrategy.CreatePlan | plan_execute_strategy.go:227-270 | There is a plan exactly when the planner gave one; it is for the given goal, Version 1, and nothing of it is begun |
| Replanning.PlanExecuteStrategy.constructor | plan_execute_strategy.go:63-66 | A maxReplanAttempts of zero becomes three; any other value, negative ones included, is kept |
| Replanning.PlanExecuteStrategy.Replan | plan_execute_strategy.go:618-663 | There is a plan exactly when the planner gave one; its Version is one more than the failed plan's, its parent is the failed plan and its goal the same |
| Replanning.PlanExecuteStrategy.Execute | plan_execute_strategy.go:96-224 | For all answers of the planner, all answers to steps and all cancellations: planHistory grows by a chain with Versions 1, 2, 3, ... for the goal given, plan k from the planner's k-th answer and the child of the one before; all but the last were executed, each as one interleaving with its answers, and not completed; currentPlan is the last. It ends as Completed exactly when the last plan was executed and all its steps are Completed; as Cancelled exactly when cancelled before executing it; as Failed only if replanning is off, maxReplanAttempts is used up, or the planner gave no plan. For a negative maxReplanAttempts the status is Completed and nothing was executed, unless there was no plan |
| Replanning.DoneIffClean | plan_execute_strategy.go:273-347 | A plan executed with an answer to every step that is a result is completed exactly when it has no step or the structural check of what the planner asked for raises no issue |
| PlanStorage.ClonePlan | plan.go:217-274 | The copy is equal as a value, in which results and metadata values are references where the code copies references, and its plan, slices, verifications and metadata maps are new |
| PlanStorage.SameFields | plan.go:217-274 | Plans of equal value agree in every field the code copies, verifications and metadata entries included |
| PlanStorage.SameStepFields | plan.go:231-264 | So do steps of equal value |
| PlanStorage.Clone | plan.go:217-274 | The copy and the plan have in common exactly the cells that step results and metadata values refer to |
| PlanSharing.LooseIff | plan.go:240-269 | These cells are those that are the result of a step, or a value in the metadata of a step or of the plan |
| PlanSharing.SeparateIff | plan.go:217-274 | A plan and its copy have nothing mutable in common exactly when there is no such cell |
| PlanSharing.CopyKeepsView | plan.go:217-274 | Whatever changes in a plan short of such a cell, its copy looks as before, down to the contents of cells |
| PlanSharing.ChangeCell | plan.go:240-269 | Changing the contents of such a cell changes how both the plan and its copy look |
| PlanStores.InMemoryPlanStore.Save | plan_store.go:53-72 | Nil and unnamed plans are refused without effect; otherwise the caller's plan is stamped and the store takes the specified step, holding an equal copy made of other objects than the caller's plan |
| PlanSharing.StoreShares | plan_store.go:68-89 | A plan saved to or loaded from the store has in common with the stored plan exactly the cells its results and metadata values refer to |
| PlanSharing.ChangeLoaded | plan_store.go:75-90 | Given such a cell, whoever loads the plan can change how the stored plan looks |
| PlanStores.InMemoryPlanStore.Load | plan_store.go:75-90 | Gives an equal copy, made of new objects, of what is stored, or the error for an empty or unknown ID |
| PlanStores.InMemoryPlanStore.Delete | plan_store.go:93-107 | Takes the specified step, which after a run StoreAnswers makes a removal of exactly the named plan, or refuses without effect |
| PlanStores.StoreAnswers | plan_store.go:53-107 | After any run on an empty store, a load gives the plan of the last save under that ID with no later delete of it, is refused for the empty ID, and finds nothing otherwise; read off the list of calls alone |
| PlanStores.DeleteAnswers | plan_store.go:93-107 | After any run a delete succeeds exactly when there is such a save, and is refused for the empty ID |
| PlanStores.PlanStoreWrapper.constructor | plan_store.go:180-190 | A cache size that is not positive becomes 100 |
| PlanStores.PlanStoreWrapper.Save | plan_store.go:205-224 | Takes the specified step of store and cache together; the saved plan is cached under the time given, then one entry, none older, is dropped exactly when there are more than the cache may hold; every cached plan stays equal to the stored one |
| PlanStores.PlanStoreWrapper.Load | plan_store.go:227-258 | Takes the specified step and gives what the store would give, from the cache or not, as an equal copy made of other objects than cache and store; a plan found in the store is cached under the time given, and a hit stamps nothing anew |
| PlanSharing.WrapperShares | plan_store.go:205-258 | A plan saved or loaded through the wrapper has in common with the stored and the cached plan exactly the cells its results and metadata values refer to |
| PlanStores.PlanStoreWrapper.Delete | plan_store.go:261-276 | Takes the specified step, with the answer of the store; after success the plan is neither in the store nor in the cache |
| PlanStores.PlanStoreWrapper.EvictOldCache | plan_store.go:289-308 | Drops exactly one entry, a least recently stamped one, when there are more than the cache may hold, and else none |
| PlanStores.PlanStoreWrapper.ClearCache | plan_store.go:311-316 | Takes the specified step: empties the cache and leaves the store alone |
| PlanStores.CoherentStep | plan_store.go:205-316 | Each step keeps every cached plan equal to the stored one, and moves the store as it would move without a cache |
| PlanStores.CacheIsTransparent | plan_store.go:205-316 | After any sequence of the steps that the methods take, and whatever eviction drops, the store is as if there were no cache, every cached plan equals the stored one, and every load answers like the store |
| PlanStores.WrapperAnswers | plan_store.go:205-316 | After any run through the wrapper over an empty store, whatever eviction drops, a load answers as StoreAnswers says |
| CircuitBreaking.CircuitBreaker.constructor | resilience.go:52-74 | Zero settings become 5 failures, 60 seconds and 2 successes; the circuit starts Closed |
| CircuitBreaking.CircuitBreaker.CanExecute | resilience.go:95-121 | Moves the state as the specified step does, and admits exactly when the state is then not Open |
| CircuitBreaking.CircuitBreaker.RecordResult | resilience.go:124-176 | Moves the state and counters as the specified step does |
| CircuitBreaking.CircuitBreaker.Reset | resilience.go:187-194 | Closes the circuit and clears both counters |
| CircuitBreaking.StateMatchesCounters | resilience.go:95-194 | In every history the state is non-Closed exactly when failures have reached the threshold, half-open successes stay below theirs, and lastFailureTime is that of the last recorded failure |
| CircuitBreaking.ClosedCountsStreak | resilience.go:128-167 | While Closed the failure count is the number of failures since the last success or reset |
| CircuitBreaking.HalfOpenCountsTrial | resilience.go:103-106 | While HalfOpen the success count is the number of successes since the circuit half-opened, with no failure in between |
| CircuitBreaking.OpensIff | resilience.go:139-147 | A closed circuit opens exactly at the failure that completes maxFailures in a row |
| CircuitBreaking.ClosesIff | resilience.go:155-165 | A half-open circuit closes exactly on a reset or on success number halfOpenMax of the trial, and opens exactly on a failure |
| CircuitBreaking.HalfOpensIff | resilience.go:101-113 | An open circuit half-opens exactly at an admission more than resetTimeout after the last recorded failure, and closes only by a reset |
| CircuitBreaking.OpenShelters | resilience.go:95-121 | After a failure leaves the circuit open nothing is admitted for resetTimeout, whatever calls in flight report |
| TokenBuckets.TokenBucketLimiter.AllowN | middleware.go:359-391 | Refills, caps and drains the key's bucket as specified, leaving all other keys alone; the rows below say what that comes to over runs |
| TokenBuckets.GrantedAfterWaiting | middleware.go:372-388 | After any history with a forward clock, a call for no more than the capacity and no more than rate times the time since the last call on the key is granted |
| TokenBuckets.FirstCallGranted | middleware.go:363-388 | The first call on a key is granted if it asks for no more than the capacity |
| TokenBuckets.ExactAccount | middleware.go:372-388 | If the bucket was not filled up since a call, the tokens left are the tokens then plus rate times elapsed time less the net units since |
| TokenBuckets.TokenBucketLimiter.Reset | middleware.go:394-399 | Forgets the key's bucket and no other |
| TokenBuckets.BucketsInRange | middleware.go:372-385 | Through every run with a forward clock no bucket is overdrawn, and without negative amounts for its key none holds more than the capacity |
| TokenBuckets.BurstAccount | middleware.go:372-388 | Net units admitted since a call, negative amounts subtracted, plus tokens left never exceed the capacity plus what has accrued |
| TokenBuckets.BurstBound | middleware.go:359-391 | From any call on a key to any later time at most capacity + rate * elapsed units are granted and what is put back; without negative amounts for the key at most capacity + rate * elapsed |
| TokenBuckets.PutBackIsTakenAgain | middleware.go:359-391 | In a bucket that never refills, the capacity and any part of it put back are granted at one instant |
| TokenBuckets.StaysInRangeIff | middleware.go:382-388 | A call for any amount keeps a bucket in range exactly when it does not put back more than fits |
| TokenBuckets.SafeAmountIff | middleware.go:382-388 | An amount keeps every bucket in range exactly when it is not negative |
| TokenBuckets.FirstCallOverfillsIff | middleware.go:363-388 | The first call on a key overfills its bucket exactly when the amount is negative, by just that much |
| TokenBuckets.RateLimiter.Allow | resilience.go:313-342 | Refills, caps and drains its bucket as the keyed limiter does for one unit |
| TokenBuckets.AllowedAfterWaiting | resilience.go:313-342 | After any calls at ascending times the next is allowed once rate times the time since the last call is at least one |
| TokenBuckets.LimiterAccount | resilience.go:313-342 | If the bucket was not filled up since, the tokens left are the tokens then plus rate times elapsed time less the number of calls allowed since |
| TokenBuckets.LimiterSolvent | resilience.go:313-342 | The limiter never owes a token |
| TokenBuckets.SameBucket | resilience.go:313-342 | Called at the same times both limiters hold the same bucket |
| TokenBuckets.SameDecision | resilience.go:313-342 | With the same rate, capacity and times, Allow and AllowN(key, 1) decide alike |
| WindowLimiting.SlidingWindowLimiter.AllowN | middleware.go:429-454 | Opens or charges the key's window and decides as specified, leaving all other keys alone |
| WindowLimiting.WindowAccount | middleware.go:436-451 | The count of the open window is exactly the net units admitted since the call that opened it, and that call's amount if it was refused |
| WindowLimiting.GrantedIff | middleware.go:436-453 | In an open window a call is granted exactly when its amount fits on top of that, and once the window is over exactly when it is within the limit |
| WindowLimiting.NewKeyOpens | middleware.go:436-444 | A key without a call since its last reset opens a window at its next call, granted exactly when within the limit |
| WindowLimiting.SlidingWindowLimiter.Reset | middleware.go:457-462 | Forgets the key's window and no other |
| WindowLimiting.TwoWindows | middleware.go:436-451 | For all amounts, net admissions over one window length split into at most two parts, each accounted for by the count of one stored window |
| WindowLimiting.OneWindow | middleware.go:447-451 | What one stored window grants never exceeds the limit and what was put back into it, before or since |
| WindowLimiting.IntervalBound | middleware.go:429-454 | For all amounts, over any interval no longer than the window at most twice the limit is granted and what was put back, into the window before or in the interval |
| WindowLimiting.TwiceTheLimit | middleware.go:429-454 | Where no negative amount is asked for of the key, before or in the interval, at most twice the limit is granted |
| WindowLimiting.BoundIsReached | middleware.go:429-454 | For every limit and window and whatever is put back before and in the interval, there is a run that is granted the whole bound within a quarter of the window, so anything put back breaks the bound of twice the limit |
| WindowLimiting.RefusedChangesNothingIff | middleware.go:436-453 | A refused call leaves the limiter as it was exactly when it opens no window, or the very one that is there |
| WindowLimiting.RefusedCallShutsOut | middleware.go:436-453 | After a refused call that opens a window no call on the key for an amount that is not negative is granted until the window is over |
| WindowLimiting.NoWindowNoLimit | middleware.go:436-444 | A window that is not positive limits each call by itself and nothing else |
| ConditionGrammar.EvaluatePrinted | workflow_expr.go:40-160 | Evaluating the printed form of any well-formed tree, with white space around it, gives the tree's meaning, errors and short-circuiting included; what connectives, comparisons and operands mean is said by the ConditionMeaning rows |
| ConditionGrammar.FoundWherePrinted | workflow_expr.go:121-124 | The first occurrence of a logical operator in printed text is where it was printed |
| ConditionGrammar.LowerLevelsAbsent | workflow_expr.go:119-157 | No operator looked for earlier than a tree's own occurs anywhere in its text |
| ConditionGrammar.CompareSplits | workflow_expr.go:163-189 | Each comparison operator is recovered with its two sides, with or without spaces, despite the overlap of >= with > and of == with others |
| ConditionGrammar.NotStrips | workflow_expr.go:97-116 | A leading negation in any of its spellings negates everything to its right |
| ConditionMeaning.ConnectivesDecide | workflow_expr.go:118-157 | For any two printed operands of the fitting levels, an error on the left is the result; a false left side decides an and and a true one an or in any of their four spellings, and otherwise the result is that of the right side |
| ConditionMeaning.NegationTurns | workflow_expr.go:97-116 | A negation in any spelling turns truth around and passes errors on |
| ConditionMeaning.NumbersCompare | workflow_expr.go:351-371 | Where both sides stand for numbers, be they written, integer fields or texts that read as numbers, each of the six operators evaluates to that comparison of the two numbers, with or without spaces |
| ConditionMeaning.LiteralsCompare | workflow_expr.go:351-371 | Two unquoted texts that read as numbers x and y compare as x and y do, for each of the six operators |
| ConditionMeaning.TextsCompare | workflow_expr.go:373-393 | Values that are not nil and not both numbers are equal exactly when their formatted texts are, and are ordered by which text comes before: the one with the smaller character where they first differ, or the one that is a proper prefix |
| ConditionMeaning.Trichotomy | workflow_expr.go:373-393 | Of two texts exactly one holds: they are equal, or one or the other comes before |
| ConditionMeaning.ComesBeforeTransitive | workflow_expr.go:373-393 | Coming before is transitive, so with Trichotomy a strict total order |
| ConditionMeaning.NilCompares | workflow_expr.go:340-349 | Nil equals nil only, and every ordering of nil is an error |
| ConditionMeaning.DenotesIff | workflow_expr.go:252-288 | A trimmed text is read as v exactly when v is what stands between its quotes, or the number it reads as, or the value of the word true, false, null or nil in any case, or the field of that name |
| ConditionMeaning.TrueIff | workflow_expr.go:456-475 | A text is true exactly if it is true, yes or 1 in any case; a Boolean is its own truth; nil and the int zero are false; everything else is true |
| ConditionMeaning.OperandTruth | workflow_expr.go:40-76 | A condition that is a single operand is as true as the value it stands for |
| ConditionMeaning.UnknownOperand | workflow_expr.go:286-288 | An operand that is no literal and names no field is an error, alone and on the left of a comparison |
| ConditionMeaning.UnknownRight | workflow_expr.go:286-288 | So it is on the right of a comparison whose left side stands for a value |
| ConditionMeaning.NothingWritten | workflow_expr.go:40-47 | The empty text is an error of its own; white space alone is looked up as a field without a name |
| ConditionDepartures.AndSplitsFirst | workflow_expr.go:118-141 | For all operands and spellings "x and y or z" is evaluated as x and (y or z), which is (x and y) or z exactly when z is false wherever x is |
| ConditionDepartures.OrGroupsFirst | workflow_expr.go:118-157 | "x or y and z" is evaluated as (x or y) and z, which is x or (y and z) exactly when z is true wherever x is |
| ConditionDepartures.FalseAndTrueOrTrue | workflow_expr.go:118-141 | An input on which this differs from the usual precedence |
| ConditionDepartures.NotNotIsNot | workflow_expr.go:99-102 | "not NOT x" evaluates to the negation of x |
| ConditionDepartures.DoubleNotIff | workflow_expr.go:99-102 | A double negation so spelled evaluates to its meaning exactly when its operand is an error |
| ConditionDepartures.MixedNotIsEndless | workflow_expr.go:99-103 | A text beginning with a "not " in neither all lower nor all upper case is evaluated by evaluating the same text, for ever |
| ConditionDepartures.EvaluationEnds | workflow_expr.go:40-189 | Evaluation of any text that holds no such "not " anywhere ends, whether or not it is a printed tree |
| ConditionDepartures.ResolveCrashesIff | workflow_expr.go:252-259 | Reading a value slices out of range exactly when the text is a lone quote character, white space aside |
| ConditionDepartures.LoneQuoteCrashes | workflow_expr.go:252-259 | A condition that is a lone quote character crashes the evaluator |
| ConditionDepartures.OnlyLoneQuotesCrash | workflow_expr.go:252-259 | No printed condition crashes unless one of its operands is a lone quote character |
| ConditionDepartures.QuotedOrCrashes | workflow_expr.go:145-148 | Comparing any resolvable operand with the quoted text ' or ' crashes, in either kind of quotes |
| ConditionDepartures.UnquotedNeverCrashes | workflow_expr.go:40-288 | Evaluation of a text without quote characters never crashes, whether or not it is a printed tree |
| ConditionDepartures.ToBoolIff | workflow_expr.go:456-475 | A number is true exactly when it is nonzero, unless it is a zero of a type other than int |
| ConditionDepartures.NumbersAreTruthy | workflow_expr.go:263-265 | Every number written as a condition is true |
| ConditionDepartures.ZeroIsTruthy | workflow_expr.go:456-475 | The literal 0 is true |
| PartialJson.RepairScan | partial_json.go:130-173 | The main scanner copies its input and ends in the state of the strict step function |
| PartialJson.FallbackScan | partial_json.go:237-273 | The fallback scanner ends in the state of the loose step function |
| PartialJson.FallbackRepair | partial_json.go:230-290 | The result is the trimmed input followed by the missing quote and the owed closers, or {} |
| PartialJson.SuffixOutside | partial_json.go:161-171 | Outside strings, on all texts, matched or not: an opening bracket puts its closer in front of the closing suffix, a quote puts a quote there, and a closer takes off the first closer owed, the main scanner only one of its kind and the fallback any; nothing else changes the suffix |
| PartialJson.SuffixInside | partial_json.go:138-158 | Inside a string the suffix begins with a quote, which only an unescaped quote takes off |
| PartialJson.MatchedIffOwed | partial_json.go:161-171 | The brackets so far can be completed to nest exactly when the stack never met a closer it did not owe |
| PartialJson.ScannersAgree | partial_json.go:138-173 | On every text whose closers match so far both scanners hold exactly the closers owed and the string state |
| PartialJson.ClosingClosesIff | partial_json.go:275-287 | Appended to a text whose closers match so far, the missing quote and reversed stack make it well nested outside any string exactly when it does not end in the middle of an escape |
| PartialJson.NoShorterSuffix | partial_json.go:275-287 | No shorter suffix closes the text, and no other one of the same length |
| PartialJson.ScanOfClosed | partial_json.go:275-287 | After the closing suffix either scanner owes nothing, unless the text ended in the middle of an escape |
| PartialJson.FallbackTwiceIff | partial_json.go:230-290 | Repairing twice is repairing once exactly when the input does not end in the middle of an escape, mismatched closers included |
| JsonRepair.CleanTrailingIncomplete | partial_json.go:197-227 | Closes an open string, or takes off white space, a comma and a key without value as specified |
| JsonRepair.RepairJSON | partial_json.go:124-194 | The specified repair: the cleaned text with the owed closers if that parses, else the fallback repair; blank input gives the empty text |
| JsonRepair.RepairCompletes | partial_json.go:124-194 | Let w be the shortest suffix that closes the trimmed input t. If t does not end mid-escape, nor outside strings in a comma or a colon, the repair is t + w, whatever parses |
| JsonRepair.RepairDropsComma | partial_json.go:175-205 | With a trailing comma, whether or not white space stands before it, the repair is the text without the comma and its closing suffix if that parses, and else keeps the comma |
| JsonRepair.CompleteStays | partial_json.go:124-194 | A complete text with nothing to clean off comes back unchanged |
| JsonRepair.RepairOfCutKey | partial_json.go:186-191 | Where a key is cut off, the repair is the text as it was with its closing suffix |
| JsonRepair.FallbackCompletes | partial_json.go:230-290 | The fallback alone gives the input with the shortest suffix that closes it, trailing commas and keys included, unless it ends mid-escape |
| JsonRepair.BlankRepair | partial_json.go:125-128 | Blank input gives the empty text, and {} from the fallback alone |
| JsonRepair.CutsAt | partial_json.go:208-222 | A key is cut off a text only if the text is some part, a quote, a gap without quotes, the last colon, and nothing visible after it but perhaps a comma; what is left is that part without trailing white space and comma |
| JsonRepair.CutsSuch | partial_json.go:208-222 | From every text of that form the key is so cut |
| JsonRepair.CutKeyStaysInside | partial_json.go:208-222 | A key is cut off at its closing quote, which leaves its string open |
| JsonRepair.CandidateNestsIff | partial_json.go:175-184 | What the main repair tries is well nested exactly when the text does not end in the middle of an escape and no key is cut off it |
| JsonRepair.CutKeyFallsBack | partial_json.go:186-191 | When a key is cut off, the result is that of the fallback repair |
| JsonRepair.RepairNestsIff | partial_json.go:124-194 | The repaired text is well nested exactly when the input does not end in the middle of an escape |
| CompletedPaths.GetValueAtPath | partial_json.go:400-416 | The loop is the recursive lookup; the empty path and paths through non-objects give null |
| CompletedPaths.LookupField | partial_json.go:405-411 | A path that begins with a field of an object goes on in that field, whatever other fields there are; an absent field and a field of anything else give null |
| CompletedPaths.LookupNested | partial_json.go:400-416 | A value put into nested objects along a path is found at that path |
| CompletedPaths.Append | partial_json.go:100 | Appending to a slice, in place or moved, gives the longer slice and leaves the shorter one as it was |
| CompletedPaths.ExtractCompletedPaths | partial_json.go:96-121 | Lists, each once and in any key order, exactly the paths at which the lookup gives neither null nor an object, although recursive calls share the prefix's backing array |
| CompletedPaths.BelowKey | partial_json.go:103-117 | What is listed below one key: that key alone for a completed value, what lies below it for an object, nothing for null |
| Pruning.EstimateTokens | pruning.go:410-416 | The set token count if positive; else t with 4(t-4) <= length of the content < 4(t-3) |
| Pruning.TotalSums | pruning.go:25-29 | The total of no messages is zero, and one more message adds its estimate |
| Pruning.OldestFirstPrune | pruning.go:20-53 | Leaves the history minus its k earliest non-system messages, k being the least number that meets the budget or a stop condition |
| Pruning.SettledIff | pruning.go:31-45 | The stop condition: within budget, at most one message, or system messages only |
| Pruning.DropEarliestKeeps | pruning.go:34-50 | Dropping k keeps all system messages in order, and of the others all but the first k in order |
| Pruning.NewestFirstPrune | pruning.go:61-99 | Keeps the last keepRecent messages as the last of the result and drops the least number of latest earlier non-system messages that meets the budget or a stop condition |
| Pruning.SettledRecentIff | pruning.go:77-93 | The stop condition: within budget, at most one message besides the recent ones, or only system messages besides them |
| Pruning.DropLatestKeeps | pruning.go:79-96 | Dropping k keeps all system messages in order, and of the others all but the last k in order |
| Pruning.ImportancePrune | pruning.go:241-300 | The result is in order and has every system message; each dropped message scores no more than each kept non-system one; each was dropped while the total, with all that was dropped with or after it, was over budget; it stops only within budget, at one message, or with only system messages |
| Pruning.LowestOut | pruning.go:271-291 | Removing the first lowest-scored non-system message while over budget keeps all of these |
| Chunking.WindowEnd | rag.go:490-507 | A window ends at the document's end, at the last word break of its second half, or at full size when there is none |
| Chunking.ChunkDocument | rag.go:480-539 | Terminates; the windows march from the start to the end of the document, each starting overlap characters before the previous one ended or, if that was no longer than the overlap, max(1, chunkSize/2) characters after it began; the chunks are their trimmed, non-blank texts, numbered 0, 1, 2, ... with IDs to match, and every non-blank character of the document lies in some chunk |
| Chunking.SharedText | rag.go:529-535 | The last overlap characters of a window longer than that are the first of the next, as far as the next reaches |
| Chunking.ChunkOfWindow | rag.go:509-523 | There is one chunk for each window that holds anything visible, in order, with its trimmed text |
| Chunking.WindowsAdvance | rag.go:489-536 | Window starts strictly increase, each window has between one and chunkSize characters, and the next starts no later than the previous ended |
| Chunking.NoGap | rag.go:489-536 | Every place of the document lies in some window |
| Chunking.NothingLost | rag.go:480-539 | Every non-blank character of the document lies in some chunk |
| Chunking.ChunksNumbered | rag.go:511-520 | Chunks are numbered 0, 1, 2, ... and none is empty |
| Balancing.WeightedBalancer.SetWeight | router.go:522-527 | Sets one provider's weight and no other |
| Balancing.WeightedBalancer.Select | router.go:530-567 | The draw picks the provider whose stretch of the cumulative weights it falls into; the fallback after the loop is never reached |
| Balancing.PicksOne | router.go:555-564 | A draw picks one position only |
| Balancing.FairShare | router.go:530-567 | Among all draws below the total weight each position is picked by exactly as many as its set weight if that is positive, and else by one |
| Balancing.LeastConnectionsBalancer.Select | router.go:589-616 | Picks the first provider with the fewest connections and counts the selection |
| Balancing.LeastConnectionsBalancer.Release | router.go:619-626 | Takes one off the provider's count unless it is zero |
| Balancing.StaysBalanced | router.go:589-616 | Over a fixed list of distinct providers without releases any two counts differ by at most one, and unless one is named by the empty text they together count every selection |

## Left out

- LLM and tool calls, prompts, HTTP and file I/O, logging, metrics, callbacks and builders. What planner and executor answer is a parameter, over all of whose values the theorems range.
- Concurrency is modelled where the code starts goroutines (the waves) or takes calls in any order (admission control); the plan store, its wrapper and the balancers are modelled under sequential calls, so a wrapper Load that misses while another goroutine deletes is not covered.
- Unsynchronised writes to `completedSteps` and `execution.Steps` by the goroutines of a wave; `completedSteps` decides nothing. The effects of a step on the plan are atomic.
- Context cancellation is a parameter that decides at the top of each replanning attempt; timeouts are not modelled further.
- Replanning.PlanExecuteStrategy.Execute: the saves of its plans to a plan store are not part of it; they would only stamp `UpdatedAt`.
- Step and plan verification by an LLM during execution, and the agent-step records of `executeStep`.
- PlanExecution.ExecutePlan: requires distinct step IDs, as `generateStepID` makes them; a plan with duplicate IDs handed in from elsewhere is not modelled.
- Replanning.ParsePlan: starts from the decoded steps of an answer; finding and decoding the JSON in it is not modelled.
- PlanVerification.VerifyPlanStructure: the score is a real number, the issue texts are data, and the switch that disables structural checks is not modelled.
- Goroutine lookup of a step that is not in the plan cannot happen, since the plan's steps do not change during a wave.
- PlanStorage.ClonePlan: a cell stands for all that lies behind one reference; the string slices of a verification, which the code copies, are values; nil and empty slices are the same.
- PlanStores.PlanStoreWrapper.Load: the callbacks are not modelled; on a cache hit the code hands `onLoad` the cache's own plan (plan_store.go:232-234), so a callback that changes any part of it makes the cache differ from the store.
- List, ListByStatus, Clear and Count of the plan store.
- The bound on the wrapper's cache: Load inserts without evicting.
- WindowLimiting.IntervalBound: requires a positive window; NoWindowNoLimit says what happens without one.
- TokenBuckets.BurstBound: the rate and the capacity are not negative; token counts and times are real numbers, so floating-point rounding is not modelled.
- RateLimiter.Wait, retries, bulkheads, and the logging and metrics of the circuit breaker.
- ConditionGrammar.EvaluatePrinted: field paths, number parsing and value formatting are parameters; case folding and white space are those of ASCII; numbers are real numbers, without NaN and infinities; comparison leaves hold no operator text.
- EvaluateTransform and its arithmetic.
- JsonRepair.RepairNestsIff: is about nesting and strings; which texts parse is a parameter, known only to be well nested, so that the repaired text parses is not claimed.
- JSON decoding by the partial parser; a decoded value is a tree.
- SummarizePruner, SlidingWindowPruner and CompositePruner, and the default scoring function, which is a parameter.
- Chunking.ChunkDocument: characters stand for bytes, and the shared metadata of chunks is not modelled.
- Balancing.FairShare: counts draws; how evenly `secureRandInt` draws is not modelled.
- RoundRobinBalancer, whose counter wraps, and RandomBalancer.
- Batching (batch.go): submitting clears the queue while holding the lock its processing needs.
