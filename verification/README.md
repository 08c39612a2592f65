# Verified model of the planner service

The service lets users sign up, log in, search for each other, and keep goals and their tasks. Six of its
endpoints are rate limited. This project models, in Dafny:

- the **rate limiter** (`Clock`, `TokenBuckets`, `Bursts`, `IdealBucket`, `RateLimiter`, `ConcurrentLimiter`,
  `ServedGoals`, `ConcurrentGoals`, `Endpoints`): the bucket arithmetic, one map of buckets per endpoint, threads
  interleaving under the mutex and doing their work after it, and six endpoints side by side;
- five **handlers** built on it (`CreateGoal`, `SearchUsers`, `UpdateTask`, and task creation and listing in
  `GoalTasks`): for every request which answer it gets, what the answer shows and what it changes, and over runs what
  it does to the limiter (`LimitedHandlers`);
- the **in-memory stores** with their redundant indexes (`TasksStorage`, `UsersStorage`, `GoalsStorage`), over the
  list of records each one stands for (`TaskLog`, `UserSearch`), and the **tables** the repositories drive
  (`TasksTable`, `UserSearch`);
- **LIKE** against substring search (`Like`), **decimal text** (`IntegerText`), and what the decimal parsers make of
  **object ids** (`ObjectIds`).

Objects the service updates in place are classes whose methods are proved against a function of the old state;
everything said about whole runs is then proved about those functions. `KeyedSequences`, `Wrappers` and `Int64`
are support.

## What the limiter really does

Time is counted in whole nanoseconds. Each call credits only the *whole* seconds since the previous call and
resets the clock even when it denies, so fractions are lost. The exact consequence is stateless (`TwoGapRule`):
a request is admitted iff it is one of the first two, or one of the two gaps just before it is a second or more.
It follows that:

- no window of `T` seconds ever admits more than `2 + 2 * floor(T)` requests of a user at an endpoint, and for every
  whole `T` some schedule attains this (`UserWindowBound`, `WindowBoundAttained`);
- goals are inserted after the check has let go of the mutex, so counted by insertion time the bound is
  `2 + 2 * floor(T + d)` when no insertion trails its check by more than `d` (`StoredThroughputBound`); it cannot be
  lowered, and without `d` it fails, since insertions may bunch up at one instant (`InsertionsMayBunch`);
- the documented rate of two requests a second (`performance_design.md`, line 32) is **not** sustained: a client at
  exactly that rate is served twice and never again, while a bucket keeping fractions serves it forever
  (`AdvertisedRateIsNotSustained`);
- after a denial the next request is admitted iff it comes a second or more later, as `X-RateLimit-Reset: 1` says
  (`ResetAfterOneSecond`).

The code reads `now` before it default-constructs a missing bucket, whose own clock read is therefore later. A call
carries both reads. The window bounds, the domination by the ideal bucket, the projection to single users and the
linearizability of threads need nothing about the delay between them. A user's answers follow the two-gap rule
exactly when the one call that builds that user's bucket takes less than a second over it (`UserTwoGapRuleIff`,
`ConcurrentTwoGapRuleIff`); calls that find a bucket may be as slow as they like. With no assumption at all the answers
still have a stateless form (`LateClosedForm`, `ConcurrentClosedForm`): a client whose bucket was built `n` whole seconds
late is denied until the whole seconds of its pauses, gap by gap, add up to `n`, and is then answered by the two-gap rule.
`GoalsStoredExactlyConcurrently` turns this into the number of goals a user ends up with, under every interleaving of
handler threads.

Token counts are modelled as reals. `TokensAreWhole` and `MapTokensAreExact` show, for every delay an int64
clock can measure, that only whole numbers up to two, which a `double` holds exactly, are ever stored.

## Where code and intention part

- **Updating a task.** The handler looks its goal up as an object id, 24 hexadecimal digits, and also requires the
  same text to be a decimal int64. `WholeObjectIdIff` lists the texts that are both: the decimal numbers padded with
  zeros to 24 digits. An id with a nonzero digit among its first five is never one of them, so no task of such a goal
  is ever updated (`GeneratedGoalsAreNeverUpdated`); object ids start with their creation time in seconds, which makes
  that every goal created after the first 4096 seconds of 1970.
- **Swapped arguments.** The same handler calls `UpdateStatus(goal_id, task_id, status)` although the repository
  declares `UpdateStatus(task_id, goal_id, status)`. `SwappedUpdateCorrectIff` gives the exact condition under which
  the swap is harmless; `RequestUpdatesItsTaskIff` says that among the requests that get as far as the table a task is
  updated iff its id is its goal's id, and `SwappedRequestMisses` is a request on which it is not.
- **Ownership.** Creating and listing check that the goal is the caller's own, updating does not: past the limiter
  neither the caller nor the goals' owners make any difference (`OwnershipIsIgnored`, `StrangerUpdates`).
- **Task lists.** Creating and listing tasks keep only the decimal digits a goal's id starts with. Two goals share one
  task list exactly when those digits agree, leading zeros aside, whoever owns them (`ListShowsTaskIff`,
  `StrangersShareAList`).
- **Goals that can have no tasks.** The number those digits denote must be the id of a row of the `goals` table, which
  the tasks table references but the service, keeping its goals in Mongo, never writes to. `TaskCreatedIff` is the exact
  condition; the goals of `data.js` all start with `60b` and `data.sql` creates rows 1 to 13, so none of them can ever
  have a task (`SeededGoalsGetNoTask`, `SeededListsStayEmpty`).
- **Table and store.** The in-memory store takes any goal id and title. The table answers as the store does throughout a run iff
  every task is created for a row of `goals` and under a title of at most 255 characters (`StoreSimulatesTableIff`).
- **Search.** `LIKE` gives `%`, `_` and backslash in a client's mask a meaning that `find` does not.
  `EnginesAgreeIff` shows that these three characters are the whole difference between query and store, and
  `QueryFindsAllOfStoreIff` says when the query misses nobody the store finds.

## Model

| member | source | states |
|---|---|---|
| RateLimiter.RateLimiter.CheckRateLimit | src/views/goals/create.cpp:28-44 | one call turns the map and the answer into those of the specification, whatever the map held |
| TokenBuckets.SliceBudget | src/views/goals/create.cpp:33-41 | over any stretch of a run, admissions plus tokens left never exceed the cap plus credit for the whole stretch, for any cap, rate and starting bucket |
| TokenBuckets.WindowBound | src/views/goals/create.cpp:21-43 | admissions in any closed window are at most the cap plus the rate times its whole seconds |
| Bursts.BurstClosedForm | src/views/goals/create.cpp:33-43 | for any whole capacity refilled within a second, the stateful answers equal the stateless burst rule, remaining count included |
| Bursts.TwoGapRule | src/views/goals/create.cpp:33-43 | admitted iff among the first two or one of the two preceding gaps is a second or more; remaining is 1 iff the request starts a burst, else 0 |
| Bursts.TwoGapRuleIff | src/views/goals/create.cpp:19-35 | the two-gap rule holds throughout a run iff the first bucket was built less than a second after the first clock read |
| Bursts.FirstAnswer | src/views/goals/create.cpp:30-37 | the exact answer to a first request as a function of the construction delay, negative remaining counts included |
| Bursts.LateClosedForm | src/views/goals/create.cpp:19-43 | for a first bucket built any time late and any schedule, every answer and every stored count are those of a stateless rule: debt until the pauses make up for the delay, the burst rule afterwards |
| Bursts.LateAdmitsIff | src/views/goals/create.cpp:19-43 | that rule admits iff the pauses have made up for the delay and the two-gap rule admits |
| Bursts.ServedIffPaused | src/views/goals/create.cpp:33-43 | a client has been served by some request iff the whole seconds of its pauses reach the seconds its bucket was late |
| Bursts.TokensAreWhole | src/views/goals/create.cpp:33-43 | from any whole count of at most two, on any schedule, stored tokens stay whole and at most two, equal the remaining count just reported, and never fall below zero or, if lower, the count the first call found |
| Bursts.FreshTokens | src/views/goals/create.cpp:33-43 | when the first bucket is built within a second only 0, 1 and 2 tokens occur, and 0 after a denial |
| Bursts.CreditIsExact | src/views/goals/create.cpp:33-34 | elapsed seconds times the rate is a whole number below 2^53 for every int64 clock difference |
| Clock.ConversionsDropFraction | src/views/goals/create.cpp:33-37 | both conversions drop a fraction of less than one, toward zero for either sign |
| Bursts.ResetAfterOneSecond | src/views/goals/create.cpp:87-93 | after a denial the next request is admitted iff it is a second or more later |
| Bursts.SteadyClientStarves | src/views/goals/create.cpp:35-43 | with every gap under a second exactly the first two requests of an unbounded run are admitted |
| Bursts.WindowBoundAttained | src/views/goals/create.cpp:21-43 | for every whole number of seconds a schedule uses the whole window budget, so the bound cannot be lowered |
| IdealBucket.IdealDominates | src/views/goals/create.cpp:33-43 | on every prefix of every schedule the code admits no more than a bucket that keeps fractional seconds, for any cap and rate |
| IdealBucket.IdealBudget | performance_design.md:32-42 | the yardstick is itself a token bucket: what it admits plus what it holds is at most the cap plus the rate times the time elapsed |
| IdealBucket.AdvertisedRateIsNotSustained | performance_design.md:32-42 | at two requests a second the ideal bucket admits all n requests and the code admits two |
| RateLimiter.Projection | src/views/goals/create.cpp:25-31 | under any interleaving of users each user gets exactly the answers and the stored bucket of a private limiter |
| RateLimiter.UserClosedForm | src/views/goals/list.cpp:28-45 | each user whose bucket was built within a second gets answers and remaining counts by the two-gap rule on that user's own calls, however slow the later calls |
| RateLimiter.UserTwoGapRuleIff | src/views/goals/list.cpp:28-45 | among any number of users, a user's answers follow the two-gap rule iff the call that built that user's bucket did so within a second |
| RateLimiter.UserLateClosedForm | src/views/goals/list.cpp:28-45 | among any number of users and for any delays, each user's answers are the late rule on that user's own clock reads |
| RateLimiter.MapTokensAreExact | src/views/goals/create.cpp:18-35 | in every reachable map every stored count is whole, at most two and exact as a double, for all int64 delays |
| RateLimiter.DenialLeavesNothing | src/views/goals/create.cpp:37-43 | in any run over many users the remaining count is 0 or 1, and 0 on every denial, for a user whose bucket was built within a second |
| RateLimiter.UserWindowBound | src/views/users/search.cpp:29-45 | in the shared map no user is admitted more than 2 + 2 * whole seconds times in any window |
| ConcurrentLimiter.Reachable | src/views/goals/create.cpp:28-44 | every interleaving of steps and clock ticks keeps the mutex, map and log invariant |
| ConcurrentLimiter.HolderCanStep | src/views/goals/create.cpp:29-43 | the holder of the mutex always has an enabled step |
| ConcurrentLimiter.Linearizable | src/views/goals/create.cpp:28-44 | answers are those of the sequential limiter in mutex order; the calls form a sequential run from the initial clock on, each reading the clock after every earlier call returned and inside its own call |
| ConcurrentLimiter.ConcurrentWindowBound | src/views/goals/create.cpp:28-44 | what a client observes between two instants of its own obeys the window bound under every interleaving |
| ConcurrentLimiter.ConcurrentClosedForm | src/views/goals/create.cpp:28-44 | under every interleaving and however long any step takes, the answers a user receives are the late rule on that user's own clock reads |
| ConcurrentLimiter.ConcurrentTwoGapRuleIff | src/views/goals/create.cpp:28-44 | under every interleaving a user is answered by the two-gap rule iff that user's bucket was built within a second, and then the remaining counts follow it too |
| ConcurrentLimiter.SequentialRunsHappen | src/views/goals/create.cpp:28-44 | conversely, every sequential run is the log of some interleaving, each call made by a thread of its own |
| ServedGoals.ServicesAreDistinct | src/views/goals/create.cpp:86-103 | under every interleaving each admitted request inserts at most once, and only after its check returned |
| ServedGoals.AdmittedAreAccountedFor | src/views/goals/create.cpp:86-103 | under every interleaving each admitted request has inserted or is still on its way to inserting |
| ServedGoals.StoredThroughputBound | src/views/goals/create.cpp:86-103 | goals stored for one user within T number at most 2 + 2 * whole seconds of T + d when no insertion trails its check by more than d |
| ServedGoals.InsertionsMayBunch | src/views/goals/create.cpp:86-103 | for every k an execution stores 2 + 2k goals at one instant with no lag over k seconds, so the bound is attained and fails without the lag |
| Endpoints.EndpointsAreIndependent | src/views/tasks/create.cpp:25-44 | each endpoint's limiter state is that of the endpoint alone with its own calls |
| Endpoints.SystemWindowBound | src/views/tasks/list.cpp:26-45 | with clock reads ordered at each endpoint only, a user is admitted at all six limiters together at most six window budgets, twelve times in any window under a second |
| LimitedHandlers.DrivesLimiter | src/views/tasks/list.cpp:77-85 | for any handler that makes its limiter calls as stated, over any run the map is that of the limiter on those calls alone, and a 429 with 2, the remaining count and 1 is exactly a denial among them |
| LimitedHandlers.PassedBound | src/views/tasks/list.cpp:77-85 | such a handler lets at most the window budget of a user's requests past its limiter |
| CreateGoal.CreateGoalHandler.HandleRequest | src/views/goals/create.cpp:64-114 | validation, identification, limiting and insertion in that order, with limiter, collection and response all given |
| CreateGoal.HandlerDrivesLimiter | src/views/goals/create.cpp:68-94 | the limiter sees exactly the valid identified requests, and a goal is created iff such a request is admitted |
| CreateGoal.RefusedBeforeLimiter | src/views/goals/create.cpp:70-84 | 400 iff the title is empty, 401 iff it is not and there is no user; neither touches limiter or collection |
| CreateGoal.LimiterDecides | src/views/goals/create.cpp:86-113 | any other request makes one limiter call; denied, it gets 429 with that call's count and stores nothing; admitted, it stores and answers one goal with the generated id, the request's title and user, and its description or the empty text |
| CreateGoal.LimitedResponse | src/views/goals/create.cpp:87-93 | a limited client whose bucket was built within a second is always told limit 2, remaining 0, reset 1 |
| CreateGoal.CollectionIsWhatWasAcknowledged | src/views/goals/create.cpp:102-113 | the collection is exactly the goals answered with 201, each owned by its requester; any other answer leaves it unchanged |
| CreateGoal.GoalsCarryRequests | src/views/goals/create.cpp:102-113 | after every run the goals are, in order, those of the requests answered with 201, each with the id, title, description and user of its own request |
| CreateGoal.GoalThroughputBound | src/views/goals/create.cpp:86-103 | goals inserted by one user's requests whose limiter read the clock in a window number at most 2 + 2 * whole seconds of the window |
| CreateGoal.GoalsStoredExactly | src/views/goals/create.cpp:86-103 | for any delays, the number of a user's goals is the number of that user's valid requests the late rule admits |
| ConcurrentGoals.RunsTheLimiter | src/views/goals/create.cpp:64-103 | a run of the whole endpoint, validation and insertion included, drives its limiter through an execution made of its valid requests only |
| ConcurrentGoals.EveryExecutionRuns | src/views/goals/create.cpp:64-103 | conversely every execution of the limiter, admitted work included, comes from some run of the endpoint |
| ConcurrentGoals.GoalsCarryTheirRequests | src/views/goals/create.cpp:68-113 | under every interleaving the k-th goal is that of the k-th insertion and carries the id, title, description and user of the request its thread had last taken up |
| ConcurrentGoals.GoalsStoredBound | src/views/goals/create.cpp:68-103 | under every interleaving the goals of one user added to the collection within T number at most 2 + 2 * whole seconds of T + d when no insertion trails its check by more than d |
| ConcurrentGoals.GoalsMayBunch | src/views/goals/create.cpp:68-103 | for every k some run adds 2 + 2k goals of one user to the collection at one instant, none trailing its check by more than k seconds |
| ConcurrentGoals.GoalsStoredExactlyConcurrently | src/views/goals/create.cpp:68-103 | under every interleaving, once no admitted request has its insertion still to make, the number of a user's goals is the number of calls the late rule admits on that user's own clock reads |
| TasksStorage.TasksStorage.CreateTask | src/tasks_storage.hpp:65-77 | both indexes grow by the one new task, numbered next and marked todo |
| TasksStorage.TasksStorage.GetById | src/tasks_storage.hpp:79-86 | the task with that id iff one was ever created |
| TasksStorage.TasksStorage.GetByGoal | src/tasks_storage.hpp:88-93 | exactly the goal's tasks in id order, none for an unknown goal |
| TasksStorage.TasksStorage.UpdateTaskStatus | src/tasks_storage.hpp:96-125 | exactly the addressed task changes, only in its status, in both indexes alike; a mismatch changes nothing |
| TasksStorage.TasksStorage.Perform | src/tasks_storage.hpp:65-125 | every operation of a run moves the store and answers exactly as the task list's step does |
| TaskLog.UpdateWritesOne | src/tasks_storage.hpp:96-125 | an update succeeds iff a task with that id belongs to the goal; the answer is the record then stored, with the status written, and every other task is as before |
| TasksStorage.TasksStorage.WriteStatusInList | src/tasks_storage.hpp:113-121 | the loop's first hit is the one entry of the addressed task, and the rest of the list is untouched |
| TasksStorage.TasksStorage.GoalOfTaskIsListed | src/tasks_storage.hpp:113-114 | after the id and goal check the goal's list exists and holds the task, so the missing-list case cannot arise |
| TasksStorage.TasksStorage.IndexesAgree | src/tasks_storage.hpp:131-132 | a record is listed under a goal iff the id index holds that very record |
| TasksStorage.TasksStorage.GoalIndexPartitions | src/tasks_storage.hpp:65-77 | the goal lists partition the tasks: their sizes sum to next_id_ - 1 |
| TaskLog.TasksKeepTheirIdentity | src/tasks_storage.hpp:65-125 | in every continuation of every run a task keeps its id, goal and title |
| TaskLog.StatusIsLastWritten | src/tasks_storage.hpp:96-125 | in every run a task's status is the last one written by an update addressed to it, else todo |
| TaskLog.StatusTexts | src/tasks_storage.hpp:20-41 | the three statuses have these three texts and the parser takes no other |
| TaskLog.PositionInGoal | src/tasks_storage.hpp:115-119 | an id occurs in its goal's list at one position only |
| TasksTable.OrderedQueryIsGroup | src/repositories/tasks_repository.cpp:39-49 | with increasing created_at the ORDER BY query has exactly one answer, the goal's tasks in id order |
| TasksTable.RunsKeepTasks | schema.sql:18-24 | from any table whose rows reference rows of goals, every run of the service's statements keeps that so, and keeps every task's id, goal and title |
| TasksTable.StoreSimulatesTable | src/repositories/tasks_repository.cpp:12-68 | as long as every insert named a row of goals and a title that fits, an answer is possible for the table iff it is the task list's answer, which `Perform` shows to be the store's; to any other insert that answer is impossible |
| TasksTable.StoreSimulatesTableIff | schema.sql:18-24 | the table gives exactly the store's answers throughout a run iff every task is created for a row of goals and under a title of at most 255 characters |
| TasksTable.InsertKeepsAgreement | src/repositories/tasks_repository.cpp:12-25 | an insert for a row of goals, under a title that fits its column, lengthens the list the table stands for by the new task, under the next id and the latest stamp |
| TasksTable.UpdateKeepsAgreement | src/repositories/tasks_repository.cpp:51-68 | for every status text the guarded update moves the table and answers as the status parser followed by the list's update, so an unknown text or a row that does not match changes nothing |
| TasksTable.SwappedUpdateCorrectIff | src/views/tasks/update.cpp:149-150 | on every table the swapped call equals the intended one iff the status is unknown, the ids are equal or neither order names a row |
| UpdateTask.UpdateTaskHandler.HandleRequest | src/views/tasks/update.cpp:95-165 | identification, limiting, integer parse, object-id lookup of the same text and body check in order, then the update; limiter, table and response all given |
| UpdateTask.LimiterComesFirst | src/views/tasks/update.cpp:99-118 | 401 and nothing changed iff there is no user; otherwise, whatever the path, the map becomes that of one limiter call and the answer is 429 with 2, its count and 1 iff that call is denied |
| UpdateTask.RunsAreLimited | src/views/tasks/update.cpp:109-118 | over any run the limiter's map is that of the calls of the identified requests, and at most the window budget of a user's requests get past it |
| UpdateTask.AdmittedAnswersIff | src/views/tasks/update.cpp:120-155 | past the limiter: invalid path iff an argument is no integer in range from end to end, an exception iff the goal argument spells no object id, goal not found iff it spells the id of no stored goal, invalid body iff there is none, task not found iff the status is unknown or no row has the goal argument as id and the task argument as goal, else updated |
| UpdateTask.UpdateWritesAnswer | src/views/tasks/update.cpp:149-164 | an update writes the status sent to the row named by the goal argument and answers that row; any other answer leaves the table as it was |
| UpdateTask.UpdatesIff | src/views/tasks/update.cpp:95-155 | any request updates a task iff it is admitted, its goal id is a stored object id spelled by 24 decimal digits that fit in 64 bits, the status is known, the task id parses and the two ids, exchanged, name a row |
| UpdateTask.OwnershipIsIgnored | src/views/tasks/update.cpp:130-150 | for two admitted requests that differ in the user only, and any two goals collections with the same ids, the table and the response come out the same |
| UpdateTask.StrangerUpdates | src/views/tasks/update.cpp:130-155 | a request by which a user finishes a task of another user's goal, while the same user's requests to list that goal's tasks or add one are answered goal not found |
| UpdateTask.GeneratedGoalsAreNeverUpdated | src/views/tasks/update.cpp:123-132 | for a goal id with a nonzero digit among its first five no request changes the table, and an admitted one is answered with invalid path |
| UpdateTask.RequestUpdatesItsTaskIff | src/views/tasks/update.cpp:120-155 | an admitted request whose goal id parses and is found, for an existing task, updates and returns it iff the two ids are equal |
| UpdateTask.SwappedRequestMisses | src/views/tasks/update.cpp:149-155 | a request for goal 7 under its zero-padded id that passes every check, on which the intended update succeeds and the handler finds nothing |
| UpdateTask.OnlyStatusOfGoalIdChanges | src/views/tasks/update.cpp:149-150 | whatever the request, the only row that can change is the one whose id is the path's goal id, and only in its status |
| GoalTasks.CreateTaskHandler.HandleRequest | src/views/tasks/create.cpp:64-134 | title, identification, limiting, prefix parse, goal lookup and ownership in order, then the insert, which the foreign key or the title's width may refuse; limiter, table and response all given |
| GoalTasks.CreateIsLimitedFirst | src/views/tasks/create.cpp:70-93 | title required iff it is empty, 401 iff it is not and there is no user, neither changing anything; otherwise one limiter call and 429 with 2, its count and 1 iff that call is denied |
| GoalTasks.CreateAnswersIff | src/views/tasks/create.cpp:95-133 | past the limiter: invalid id iff the goal argument starts with no integer in range, an exception iff it spells no object id, one 404 iff no stored goal has that id and the other iff somebody else's has, else the insert; the row it adds has the parsed number, the title up to 255 characters, todo and the next serial, and nothing else changes |
| GoalTasks.CreateRunsAreLimited | src/views/tasks/create.cpp:85-93 | over any run the limiter's map is that of the calls of the titled, identified requests, and its budget holds |
| GoalTasks.ListTasksHandler.HandleRequest | src/views/tasks/list.cpp:64-128 | the same checks without the title, then record by record an answer the table may give to the query for the prefix-parsed goal id |
| GoalTasks.ListIsLimitedFirst | src/views/tasks/list.cpp:68-85 | 401 and nothing changed iff there is no user; otherwise one limiter call and 429 with 2, its count and 1 iff that call is denied |
| GoalTasks.ListAnswersIff | src/views/tasks/list.cpp:87-128 | past the limiter: the refusals as for creating, and a list iff the goal is the caller's own, which is then the query's answer for the number the goal argument starts with |
| GoalTasks.ListServedIff | src/views/tasks/list.cpp:64-128 | any request is served a list iff it is admitted, its goal argument spells the id of a stored goal of the caller's own, and that id starts with decimal digits that fit in 64 bits |
| GoalTasks.ListRunsAreLimited | src/views/tasks/list.cpp:77-85 | over any run the limiter's map is that of the calls of the identified requests, and its budget holds |
| GoalTasks.ListShowsTaskIff | src/views/tasks/list.cpp:91-112 | a task created through one goal is in the list later served for another, the goals having changed in between or not, iff the two ids start with the same decimal digits, leading zeros aside, whoever owns them |
| GoalTasks.CreatedTaskStays | src/repositories/tasks_repository.cpp:12-68 | a task a request created is held by the table, but for its status the same, after any further run of the service's statements |
| GoalTasks.TaskCreatedIff | src/views/tasks/create.cpp:64-121 | any request creates a task iff it has a title that fits its column, is admitted, names a goal of the caller's own, and the decimal digits the goal's id starts with spell the id of a row of goals |
| GoalTasks.SeededGoalsGetNoTask | data.js:5-65 | while goals has no row 60, no request creates a task for a goal whose id starts with 60b, as all the seeded ones do |
| GoalTasks.SeededListsStayEmpty | data.sql:13-26 | from any table with sound references and no goal row 60, after every run such a goal is served the empty list |
| GoalTasks.StrangersShareAList | src/views/tasks/list.cpp:91-112 | two requests by different users for their own goals, ids starting with 6a and 6b, with a goal row 6: the task the first creates is the whole list the second is served |
| ObjectIds.WholeObjectIdIff | src/views/tasks/update.cpp:123-131 | an object id is a whole int64 n iff it is the decimal spelling of n padded to 24 digits |
| ObjectIds.GeneratedIdIsNoInteger | src/views/tasks/update.cpp:123-131 | an object id with a nonzero digit among its first five is refused by the integer parser |
| ObjectIds.ObjectIdsCollideIff | src/views/tasks/create.cpp:101-102 | two object ids are read as one integer iff their decimal prefixes are the same but for leading zeros |
| ObjectIds.GoalByIdIff | src/repositories/goals_repository.cpp:41-58 | a goal is found by exactly the texts that spell the twelve bytes of its id in hexadecimal, in either case; other ids miss and other texts fail |
| ObjectIds.OidTextInjective | src/repositories/goals_repository.cpp:34 | different ids are handed out as different texts |
| UsersStorage.UsersStorage.CreateUser | src/users_storage.hpp:29-51 | refused iff the login is taken, then nothing changes, not even next_id_; otherwise both indexes gain the user under the next id |
| UsersStorage.UsersStorage.GetByLogin | src/users_storage.hpp:53-61 | the user with that login iff there is one |
| UsersStorage.UsersStorage.GetById | src/users_storage.hpp:63-70 | the user with that id iff there is one |
| UsersStorage.UsersStorage.UserExists | src/users_storage.hpp:72-75 | true iff the id lies between 1 and next_id_ - 1 |
| UsersStorage.UsersStorage.Search | src/users_storage.hpp:78-103 | for every traversal order of the hash map, without duplicates exactly the users whose login is the one given, in whose first name the first mask occurs and in whose last name the last mask occurs, as far as given |
| UsersStorage.UsersStorage.IndexesAgree | src/users_storage.hpp:107-109 | logins are unique and each index leads to the record the other holds |
| UsersStorage.UsersStorage.IndexesHaveOneSize | src/users_storage.hpp:48-50 | both indexes hold next_id_ - 1 users, so both emplaces always insert |
| GoalsStorage.GoalsStorage.CreateGoal | src/goals_storage.hpp:19-32 | the goal list grows by the new goal under the next id |
| GoalsStorage.GoalsStorage.GetGoalsByUser | src/goals_storage.hpp:44-54 | for every traversal order, a duplicate-free permutation of the user's goals |
| GoalsStorage.GoalsStorage.OwnersPartitionGoals | src/goals_storage.hpp:19-54 | the per-user lists partition the goals: their sizes sum to next_id_ - 1 |
| UserSearch.KeptIff | src/users_storage.hpp:86-101 | each engine holds the first mask against the first name and the last against the last: by occurrence in the store, by LIKE in the query |
| UserSearch.SearchAnswerIsSelect | src/repositories/users_repository.cpp:80-89 | the query has exactly one answer: in id order, the users with the login given whose first name is LIKE the first mask and whose last name is LIKE the last |
| UserSearch.EnginesAgreeIff | src/repositories/users_repository.cpp:84-86 | query and store agree on every list of users iff neither mask holds a percent sign, underscore or backslash |
| UserSearch.QueryFindsAllOfStoreIff | src/repositories/users_repository.cpp:84-86 | on every list of users the query returns everyone the store returns iff neither mask has a dangling escape and each matches its own text; masks without backslash always do |
| UserSearch.EmptyMasksMayBeDropped | src/views/users/search.cpp:87-100 | passing an empty mask as absent changes no answer of either engine |
| UserSearch.LoginSelectsOne | src/users_storage.hpp:86-101 | with only a login filter the answer is the one user with that login, or nobody |
| SearchUsers.SearchHandler.HandleRequest | src/views/users/search.cpp:60-115 | identification and limiting, then the filter check, then one result for each row of the query, in order, with that row's id, login, first and last name |
| SearchUsers.LimiterComesFirst | src/views/users/search.cpp:64-81 | 401 and nothing changed iff there is no user; otherwise, whatever the filters, one limiter call and 429 with 2, its count and 1 iff that call is denied |
| SearchUsers.RunsAreLimited | src/views/users/search.cpp:73-81 | over any run the limiter's map is that of the calls of the identified requests, those without filters included, and its budget holds |
| SearchUsers.FilterRequiredIff | src/views/users/search.cpp:83-95 | past the limiter a request is refused iff all three arguments are empty |
| SearchUsers.ResultsAreAskedUsers | src/views/users/search.cpp:97-113 | the results are, in table order and field by field, exactly the users with the login asked for whose first and last names are LIKE the first and last mask, an empty argument asking for nothing |
| SearchUsers.PasswordsDoNotShow | src/views/users/search.cpp:105-113 | two tables that differ in passwords only get the same answer to every request |
| SearchUsers.ResultsArePassingUsers | src/views/users/search.cpp:97-113 | a user of the table is shown iff the login is the one asked for, if any, and both names are LIKE the masks as sent, the empty one included |
| SearchUsers.PlainSearchMatchesStore | src/views/users/search.cpp:97-100 | with plain masks the response is the in-memory store's answer in id order |
| Like.WrappedMaskIsValid | src/repositories/users_repository.cpp:85-86 | the query's pattern never ends in a dangling escape, whatever the client sends |
| Like.LikeIff | src/repositories/users_repository.cpp:85-86 | LIKE by its meaning: the pattern spells a list of tokens and the text falls into pieces they stand for, one given character, any one character or anything; an error iff the pattern spells nothing |
| Like.MaskMatchesSegment | src/repositories/users_repository.cpp:85-86 | for any mask without a dangling escape, the query keeps a name iff some segment of it is LIKE the mask |
| Like.PlainMaskIsSubstring | src/repositories/users_repository.cpp:85-86 | for a plain mask the query keeps a name iff find succeeds |
| Like.AgreeOnAllNamesIff | src/repositories/users_repository.cpp:85-86 | LIKE and find agree on all names iff the mask is plain |
| Like.SubstringImpliesLike | src/repositories/users_repository.cpp:85-86 | without backslashes, containing the mask implies passing the query |
| Like.SubstringImpliesLikeIff | src/repositories/users_repository.cpp:85-86 | with backslashes that implication holds for all names iff no escape dangles and the mask's own text passes |
| Like.BackslashLosesNames | src/repositories/users_repository.cpp:85-86 | a mask whose own text the query drops |
| IntegerText.RoundTrip | src/views/users/login.cpp:55 | every int64, the minimum included, is read back from its decimal text using all of it |
| IntegerText.WrittenShortest | src/views/users/login.cpp:55 | the text written for a number has no white space, plus sign or leading zero |
| IntegerText.LoginIsRecognised | src/auth/jwt_auth_checker.cpp:64-75 | the subject issued at login yields the same user id in the checker, and different users never share a subject |
| IntegerText.SubjectAcceptedIff | src/auth/jwt_auth_checker.cpp:55-73 | a subject is accepted as an id iff it is white space, sign and digits of that value, then anything not a digit; the refusal for an empty subject is told apart from that for any other |
| IntegerText.ParseInt | src/views/tasks/update.cpp:58-71 | succeeds iff the whole text is white space, sign and digits in range, then agrees with stoll; otherwise out keeps its value |
| IntegerText.ParseIntAccepts | src/views/tasks/update.cpp:61-64 | full consumption by stoll is equivalent to the grammar of whole integers in range |
| IntegerText.StollIff | src/views/tasks/create.cpp:101-107 | the prefix parse yields n iff the text starts with an integer in range that denotes n |
| IntegerText.StollIgnoresTail | src/views/tasks/create.cpp:101-107 | the prefix parse of the other handlers also accepts an integer followed by rubbish, with the same value |

## Left out

- The framework: components, configuration, HTTP objects, JSON and BSON conversion, logging and `main`. Handlers are modelled on the parsed body and path arguments; schema checks made while parsing are not part of this model.
- JWT signing and verification: only the text of the subject is modelled.
- Database engines, replicas whose reads may lag, connections and failures other than the foreign key and title width of the tasks table: tables are sequential values, only refused inserts leave gaps in the serial ids, and `created_at` strictly increases from one insertion to the next. The rows of `goals` are fixed, since no statement of the service writes to them.
- Text encodings: texts are sequences of characters a database column can hold, so free of NUL.
- The users table's own INSERT: duplicate logins are modelled for the in-memory store only.
- Mongo beyond a map from object ids to owners: the object-id constructor is taken to raise an exception on text that is not 24 hexadecimal digits, and the time in front of a generated id is not part of the model.
- The rest of the goals repository, and reading a single task by id through the service, which no handler does.
- The cache described in `performance_design.md`, for which the repository has no code.
- Hash-table and mutex internals: maps are traversed in arbitrary order, and the mutex is a field holding its owner.
- The stores' own mutexes: each store method runs to its end before the next, as its lock guard makes it.
- Overflow of `next_id_`: creating a record requires that the next id is below the int64 maximum.
- IEEE rounding: token counts are reals, which `CreditIsExact` and `MapTokensAreExact` show to be exact as doubles. The conversion of a count to a 32-bit `int` is exact while a bucket takes less than 2^30 seconds to build.
- The shape of `UpdateTaskStatus`: its loop is a method of its own, `WriteStatusInList`.
- How the database computes its answers: the search handler is given its rows and the list handler a function from goal ids to rows, both constrained to be answers of the query.
