# Critical path schedule (CPM) — a verified model

The program reads a task graph and computes a Critical Path Method schedule. The graph is an n×n 0/1 adjacency matrix; entry (i, j) = 1 means task i must finish before task j starts. Each task also has a duration. The program computes:

- each task's earliest start, in a forward pass over a queue of tasks whose in-degree has dropped to 0 (Kahn's topological sort);
- the project length;
- each task's latest start, in a backward pass over the recorded topological order;
- the ascending list of critical tasks, those whose earliest and latest starts agree;
- each task's slack.

This project models `readGraph` and `findCriticalPath` without their console I/O, and proves what they compute.

Modules:

- `Graphs` (graph.dfy). The matrix becomes successor lists, predecessor lists and in-degrees. `BuildGraph` is the nested loop of `readGraph`, with one row's scan in `ScanRow`. `GraphOf` is the graph it must produce.
- `Forward` (forward.dfy). The queue seeding and the forward pass. `ForwardPass` runs over local arrays for the in-degrees and earliest starts, and the queue is a `seq`.
  - `RelaxSuccessors` is the inner loop over the successors of the vertex just taken (lines 74-85). Its result is given by three sequence functions of the state before the loop: `Readied` is the list of successors appended to the back of the queue, `Decremented` the new in-degrees and `RaisedTo` the new earliest starts.
  - The loop invariant of the outer loop, `SweepState`, records five things: the emitted vertices followed by the queue hold no vertex twice and begin with the seeded sources (`SeedsFirst`); every emitted vertex comes after its predecessors; each in-degree counts the predecessors not yet emitted; a vertex has in-degree 0 exactly when it is emitted or queued; each earliest start is the running maximum over the emitted predecessors.
- `Backward` (backward.dfy). The sink loop and the reverse pass. That pass pulls each vertex's latest start from its successors (line 103) and pushes it to the predecessors (line 106).
  - Latest starts are `Time` values: `Infinity` stands for the `INT_MAX` initial value.
  - The invariant `BackState` says that a visited vertex holds its settled value `Settled`, and an unvisited one the running minimum over its visited successors.
- `Classification` (classification.dfy). Critical tasks and slack.
- `CriticalPath` (critical_path.dfy). `FindCriticalPath` chains the phases and returns the program's globals as a `Schedule`. The lemmas here relate the phases on acyclic graphs:
  - every latest start is finite and no earlier than the earliest start;
  - a critical task hands the critical path on to a critical successor;
  - critical tasks form a chain to a sink whose durations add up to the project length; with no negative durations it starts at a task without predecessors.
- `Scenarios` (scenarios.dfy). Four small graphs.
  - For the lone task, the chain and the diamond, the results follow from `FindCriticalPath`'s contract alone.
  - `NegativeLead` is the edge 0 -> 1 with durations -5, 0. It works from the earliest- and latest-start recurrences, which every result of `FindCriticalPath` satisfies.
  - `DiamondFirstRelax` shows the queue, in-degrees and earliest starts that `RelaxSuccessors` must leave after the diamond's source is taken.
- `Seqs` and `Times`. Helpers for id lists and for times with a sentinel.

The model follows the code also on cyclic input. The forward pass then stops early, and the postcondition `|order| == n <==> Acyclic(graph)` says exactly when that happens. Here `Acyclic` means a topological numbering exists.

## Project length: the code against textbook CPM

In the textbook Critical Path Method the project length is the time at which the last task finishes, so it includes each sink's own duration. The code differs:

- The sink loop (lines 88-94) takes the largest *earliest start* over the sinks, without adding the sink's duration.
- Every sink's latest start is set to the running value of that maximum (line 92). The backward pass then sets each emitted sink's latest start to the final value (line 100).

| graph | textbook length | length the code computes |
|---|---|---|
| one task of duration 5 | 5 | 0 |
| chain 0 → 1, durations 3, 4 | 7 | 3 |
| diamond 0 → 1, 0 → 2, 1 → 3, 2 → 3, durations 2, 5, 1, 3 | 10 | 7 |

The model follows the code, and `Scenarios.LoneTask`, `Scenarios.Chain` and `Scenarios.Diamond` prove these values. In all three scenarios the critical tasks and the slacks still match textbook CPM: [0] with slack [0]; [0, 1] with slack [0, 0]; [0, 1, 3] with slack [0, 0, 4, 0].

That match is a coincidence of graphs with a single sink s. The textbook latest start of s is its length minus d[s], which is es[s], and es[s] is the code's length. Nothing is shifted.

With several sinks the two disagree. Take two independent tasks with durations 5 and 3. By lines 88-100 the code gives length 0, earliest and latest starts [0, 0], and critical tasks [0, 1]. Textbook CPM gives length 5, latest starts [0, 2] and critical tasks [0].

## Model

| member | source | states |
|---|---|---|
| Graphs.ScanRow | lab1_xaritiniva_SPY_kuznetsov/lab1_xaritiniva_SPY_kuznetsov.cpp:34-43 | scanning row i completes i's successor list, and adds i to the predecessor list and the in-degree of each column holding a 1 |
| Graphs.BuildGraph | lab1_xaritiniva_SPY_kuznetsov/lab1_xaritiniva_SPY_kuznetsov.cpp:33-44 | the nested row/column loop builds exactly `GraphOf(m)`: successor lists, predecessor lists and in-degrees |
| Graphs.SuccUpToSpec | lab1_xaritiniva_SPY_kuznetsov/lab1_xaritiniva_SPY_kuznetsov.cpp:33-38 | vertex i's successor list is strictly ascending, holds only ids below n, and holds j exactly when m[i][j] == 1 |
| Graphs.PredUpToSpec | lab1_xaritiniva_SPY_kuznetsov/lab1_xaritiniva_SPY_kuznetsov.cpp:33-40 | vertex j's predecessor list is strictly ascending and holds i exactly when m[i][j] == 1; its length is the number of 1s in column j |
| Graphs.GraphOfSpec | lab1_xaritiniva_SPY_kuznetsov/lab1_xaritiniva_SPY_kuznetsov.cpp:33-44 | the built graph is valid and has n vertices; successors and predecessors are mutually inverse and match the matrix's 1-entries; each in-degree counts the 1s of its column (line 39) |
| Forward.SourcesUpToSpec | lab1_xaritiniva_SPY_kuznetsov/lab1_xaritiniva_SPY_kuznetsov.cpp:61-65 | the queue is seeded in ascending id order with exactly the vertices of in-degree 0 |
| Forward.PendingZero | lab1_xaritiniva_SPY_kuznetsov/lab1_xaritiniva_SPY_kuznetsov.cpp:76-80 | a vertex's remaining in-degree is 0 exactly when all of its predecessors have been taken from the queue |
| Forward.PendingAppend | lab1_xaritiniva_SPY_kuznetsov/lab1_xaritiniva_SPY_kuznetsov.cpp:74-76 | taking one more vertex lowers a vertex's remaining in-degree by one exactly when it is a predecessor |
| Forward.MaxFinishIsMax | lab1_xaritiniva_SPY_kuznetsov/lab1_xaritiniva_SPY_kuznetsov.cpp:84 | the earliest-start recurrence is the largest of 0 and the predecessors' finish times, and equals 0 or one of them |
| Forward.RunningMaxStep | lab1_xaritiniva_SPY_kuznetsov/lab1_xaritiniva_SPY_kuznetsov.cpp:84 | one `max` with predecessor u's finish time extends the running maximum to u |
| Forward.RunningMaxComplete | lab1_xaritiniva_SPY_kuznetsov/lab1_xaritiniva_SPY_kuznetsov.cpp:84 | once every predecessor has been taken, the running maximum is the recurrence's value |
| Forward.EmittedByRank | lab1_xaritiniva_SPY_kuznetsov/lab1_xaritiniva_SPY_kuznetsov.cpp:68-86 | in an acyclic graph the pass cannot stop while a vertex is left out, because each left-out vertex keeps a left-out predecessor |
| Forward.OrderIsNumbering | lab1_xaritiniva_SPY_kuznetsov/lab1_xaritiniva_SPY_kuznetsov.cpp:68-71 | an emission order that holds every vertex numbers the graph topologically, so the graph is acyclic |
| Forward.SweepEndOrder | lab1_xaritiniva_SPY_kuznetsov/lab1_xaritiniva_SPY_kuznetsov.cpp:68-86 | when the queue is empty, all n vertices have been emitted exactly when the graph is acyclic |
| Forward.SweepEndTimes | lab1_xaritiniva_SPY_kuznetsov/lab1_xaritiniva_SPY_kuznetsov.cpp:68-86 | when the queue is empty, every emitted vertex satisfies the earliest-start recurrence, every other vertex holds the maximum over its emitted predecessors, and a source keeps 0 (line 11) |
| Forward.RelaxEdge | lab1_xaritiniva_SPY_kuznetsov/lab1_xaritiniva_SPY_kuznetsov.cpp:76-84 | one edge u -> v: v's in-degree drops by one, v is pushed exactly when it reaches 0, and v's earliest start becomes the max of itself and u's finish time; nothing else changes |
| Forward.ReadiedMembers | lab1_xaritiniva_SPY_kuznetsov/lab1_xaritiniva_SPY_kuznetsov.cpp:76-80 | a successor is appended to the queue exactly when its in-degree before the decrement is 1 |
| Forward.ReadiedAscending | lab1_xaritiniva_SPY_kuznetsov/lab1_xaritiniva_SPY_kuznetsov.cpp:74-80 | the appended successors keep the ascending order of the successor list |
| Forward.DecrementedSpec | lab1_xaritiniva_SPY_kuznetsov/lab1_xaritiniva_SPY_kuznetsov.cpp:74-77 | relaxing a duplicate-free successor list lowers the in-degree of each successor by exactly one and leaves every other vertex's in-degree unchanged |
| Forward.RaisedToSpec | lab1_xaritiniva_SPY_kuznetsov/lab1_xaritiniva_SPY_kuznetsov.cpp:74-84 | without a self-loop, each successor's earliest start becomes the larger of itself and u's finish time; every other vertex keeps its earliest start |
| Forward.RelaxSuccessors | lab1_xaritiniva_SPY_kuznetsov/lab1_xaritiniva_SPY_kuznetsov.cpp:74-85 | the old queue stays in front, followed by `Readied`: the successors whose in-degree was 1, in successor-list order. The in-degrees become `Decremented` and the earliest starts `RaisedTo`, both of the values before the loop |
| Forward.RelaxTaken | lab1_xaritiniva_SPY_kuznetsov/lab1_xaritiniva_SPY_kuznetsov.cpp:74-85 | the same result for the vertex just taken from the queue, plus the restored forward-pass invariant for the longer order |
| Forward.ForwardPass | lab1_xaritiniva_SPY_kuznetsov/lab1_xaritiniva_SPY_kuznetsov.cpp:60-86 | the order is duplicate-free, puts every vertex after its predecessors and starts with the seeded sources; it holds all n vertices exactly when the graph is acyclic; emitted vertices satisfy the earliest-start recurrence |
| Backward.SeedSinks | lab1_xaritiniva_SPY_kuznetsov/lab1_xaritiniva_SPY_kuznetsov.cpp:88-94 | the final running maximum is the project length `SinkMax`; each sink's latest start is the maximum over the sinks up to it, and every other vertex keeps the sentinel |
| Backward.SinkMaxIsMax | lab1_xaritiniva_SPY_kuznetsov/lab1_xaritiniva_SPY_kuznetsov.cpp:88-94 | the project length is the largest of 0 and the sinks' earliest starts, and equals 0 or one of them |
| Backward.MinNextIsMin | lab1_xaritiniva_SPY_kuznetsov/lab1_xaritiniva_SPY_kuznetsov.cpp:102-104 | the successor minimum lies below every `ls[v] - d` and equals one of them, or is the sentinel when there are no successors |
| Backward.MinNextFrame | lab1_xaritiniva_SPY_kuznetsov/lab1_xaritiniva_SPY_kuznetsov.cpp:102-104 | the successor minimum depends on the successors' latest starts only |
| Backward.RunningMinStep | lab1_xaritiniva_SPY_kuznetsov/lab1_xaritiniva_SPY_kuznetsov.cpp:103 | one `min` with a successor's latest start less the duration extends the running minimum to that successor |
| Backward.RunningMinComplete | lab1_xaritiniva_SPY_kuznetsov/lab1_xaritiniva_SPY_kuznetsov.cpp:102-106 | once every successor has been applied to the sentinel, pulls and pushes together give the successor minimum |
| Backward.Lower | lab1_xaritiniva_SPY_kuznetsov/lab1_xaritiniva_SPY_kuznetsov.cpp:103 | one `std::min` into a single cell of the latest-start array; no other cell changes |
| Backward.Pull | lab1_xaritiniva_SPY_kuznetsov/lab1_xaritiniva_SPY_kuznetsov.cpp:98-104 | visiting a vertex resets a sink to the project length and applies every successor, giving the state before its pushes |
| Backward.Push | lab1_xaritiniva_SPY_kuznetsov/lab1_xaritiniva_SPY_kuznetsov.cpp:105-107 | pushing to every predecessor leaves the vertex counted as visited for all vertices |
| Backward.Visit | lab1_xaritiniva_SPY_kuznetsov/lab1_xaritiniva_SPY_kuznetsov.cpp:97-107 | visiting the vertex at one position earlier in the reverse order moves the backward-pass invariant one step back |
| Backward.BackwardPass | lab1_xaritiniva_SPY_kuznetsov/lab1_xaritiniva_SPY_kuznetsov.cpp:88-108 | the length is the sinks' maximum earliest start. Every emitted vertex ends with its settled latest start: the length for a sink, the successor minimum otherwise. A vertex never emitted keeps its sink-loop value, or the `INT_MAX` sentinel of line 12 |
| Times.Max | lab1_xaritiniva_SPY_kuznetsov/lab1_xaritiniva_SPY_kuznetsov.cpp:84-91 | `std::max` on integers: no smaller than either argument, and equal to one of them |
| Times.Min | lab1_xaritiniva_SPY_kuznetsov/lab1_xaritiniva_SPY_kuznetsov.cpp:103 | `std::min` on times: no later than either argument, and equal to one of them |
| Times.Minus | lab1_xaritiniva_SPY_kuznetsov/lab1_xaritiniva_SPY_kuznetsov.cpp:103 | subtracting a duration keeps a time finite exactly when it was finite |
| Classification.Classify | lab1_xaritiniva_SPY_kuznetsov/lab1_xaritiniva_SPY_kuznetsov.cpp:110-120 | the critical list is ascending and holds exactly the vertices with earliest == latest; slack is latest minus earliest, and it is 0 exactly for the critical vertices |
| CriticalPath.LatestFrom | lab1_xaritiniva_SPY_kuznetsov/lab1_xaritiniva_SPY_kuznetsov.cpp:97-108 | for a complete order, every vertex from a given position on has a finite latest start no earlier than its earliest start |
| CriticalPath.LatestNotBeforeEarliest | lab1_xaritiniva_SPY_kuznetsov/lab1_xaritiniva_SPY_kuznetsov.cpp:97-108 | on an acyclic graph every latest start is finite and at least the earliest start, so no slack is negative |
| CriticalPath.CriticalSuccessor | lab1_xaritiniva_SPY_kuznetsov/lab1_xaritiniva_SPY_kuznetsov.cpp:97-120 | a critical task with successors has a critical successor that starts exactly when it finishes |
| CriticalPath.CriticalPredecessor | lab1_xaritiniva_SPY_kuznetsov/lab1_xaritiniva_SPY_kuznetsov.cpp:68-120 | a critical task with a positive earliest start has a critical predecessor that finishes exactly when it starts |
| CriticalPath.ZeroPredecessor | lab1_xaritiniva_SPY_kuznetsov/lab1_xaritiniva_SPY_kuznetsov.cpp:68-120 | with no negative durations, every predecessor of a critical task that starts at 0 is critical, starts at 0 and takes no time |
| CriticalPath.ChainTo | lab1_xaritiniva_SPY_kuznetsov/lab1_xaritiniva_SPY_kuznetsov.cpp:68-120 | every critical task ends a chain of critical tasks along edges from earliest start 0; its earliest start is the sum of the durations before it; with no negative durations the chain starts at a task without predecessors |
| CriticalPath.LastIsSink | lab1_xaritiniva_SPY_kuznetsov/lab1_xaritiniva_SPY_kuznetsov.cpp:68-71 | the last vertex of a complete topological order has no successors |
| CriticalPath.CriticalSink | lab1_xaritiniva_SPY_kuznetsov/lab1_xaritiniva_SPY_kuznetsov.cpp:88-100 | on a nonempty acyclic graph some sink is critical and starts at the project length |
| CriticalPath.CriticalPathExists | lab1_xaritiniva_SPY_kuznetsov/lab1_xaritiniva_SPY_kuznetsov.cpp:60-120 | on a nonempty acyclic graph a critical chain ends at a sink, and the durations of its tasks before that sink add up to the project length; with no negative durations it starts at a task without predecessors |
| CriticalPath.FindCriticalPath | lab1_xaritiniva_SPY_kuznetsov/lab1_xaritiniva_SPY_kuznetsov.cpp:60-120 | the whole computation from the matrix: graph, order, earliest starts, length, latest starts and classification as above. An acyclic graph yields a complete order, finite latest starts no earlier than earliest starts, and a critical chain to a sink spanning the project length, which starts at a task without predecessors when no duration is negative |
| Scenarios.LoneTask | lab1_xaritiniva_SPY_kuznetsov/lab1_xaritiniva_SPY_kuznetsov.cpp:88-120 | one task of duration 5: earliest and latest start 0, length 0, critical [0], slack [0] |
| Scenarios.Chain | lab1_xaritiniva_SPY_kuznetsov/lab1_xaritiniva_SPY_kuznetsov.cpp:60-120 | chain 0 -> 1 with durations 3, 4: order [0, 1], earliest [0, 3], length 3, latest [0, 3], critical [0, 1], slack [0, 0] |
| Scenarios.NegativeLead | lab1_xaritiniva_SPY_kuznetsov/lab1_xaritiniva_SPY_kuznetsov.cpp:60-120 | edge 0 -> 1 with durations -5, 0: earliest [0, 0], length 0, latest [5, 0]; task 0 is not critical, so every critical chain starts at task 1, which has a predecessor |
| Scenarios.Diamond | lab1_xaritiniva_SPY_kuznetsov/lab1_xaritiniva_SPY_kuznetsov.cpp:60-120 | diamond with durations 2, 5, 1, 3: order starts with 0 and ends with 3, earliest [0, 2, 2, 7], length 7, latest [0, 2, 6, 7], critical [0, 1, 3], slack [0, 0, 4, 0] |
| Scenarios.DiamondFirstRelax | lab1_xaritiniva_SPY_kuznetsov/lab1_xaritiniva_SPY_kuznetsov.cpp:74-85 | after the source 0 of the diamond is taken, the queue is [1, 2], the in-degrees are [0, 0, 0, 2] and the earliest starts are [0, 2, 2, 0] |
| Scenarios.DiamondOrder | lab1_xaritiniva_SPY_kuznetsov/lab1_xaritiniva_SPY_kuznetsov.cpp:60-86 | the forward pass on the diamond emits the source 0 first and the sink 3 last |
| Scenarios.DiamondEarliest | lab1_xaritiniva_SPY_kuznetsov/lab1_xaritiniva_SPY_kuznetsov.cpp:84-94 | the recurrence forces earliest starts [0, 2, 2, 7] and length 7 on the diamond |
| Scenarios.DiamondLatest | lab1_xaritiniva_SPY_kuznetsov/lab1_xaritiniva_SPY_kuznetsov.cpp:97-108 | with length 7 the settled latest starts of the diamond are [0, 2, 6, 7] |
| Scenarios.DiamondCritical | lab1_xaritiniva_SPY_kuznetsov/lab1_xaritiniva_SPY_kuznetsov.cpp:110-120 | those starts classify 0, 1 and 3 as critical, and give task 2 a slack of 4 |

## Left out

- Console I/O. The prompts and `cin` reads of `readGraph` (lines 32, 35-36), `readDurations` (lines 48-56), the report printing (lines 122-132), and `main` with `setlocale` (lines 135-162) are left out. The matrix and the durations are parameters of `FindCriticalPath`, and its results are returned in a `Schedule` instead of printed.
- The `stack<int> order` global (line 21) is never used by the program.
- Global state across calls. The model runs `readGraph` and `findCriticalPath` once on fresh state, as `main` does. For a second call, `inDegree.resize` (line 30) would keep the old counts and `topologicalOrder` (line 22) is never cleared; the model does not show that.
- Times.Minus: 32-bit `int` overflow is not modelled; all integers are unbounded. The `INT_MAX` initial latest start (line 12) is the `Infinity` value, and subtracting a duration leaves it `Infinity`, where the program computes `INT_MAX - d`. This differs only on a cyclic graph, in two cases. First, a never-emitted vertex that has successors is not visited by the backward pass and receives no push, because only emitted vertices push and all their predecessors were emitted. It keeps `INT_MAX`, so line 118 gives it the finite slack `INT_MAX - es`; the model keeps `Infinity` and its slack is `Infinity`. A never-emitted sink holds its finite sink-loop value (line 92) in both. Second, an emitted vertex whose minimum at line 103 is taken by such an `INT_MAX` successor gets `INT_MAX - d` in the program and `Infinity` in the model, and its predecessors inherit the difference at line 106. A successor that is a never-emitted sink gives the same finite value in both. On acyclic graphs every latest start is finite, so nothing differs.
- CriticalPath.CriticalPathExists: the chain is promised to start at a task without predecessors only when no duration is negative. The program accepts negative durations, and then the promise fails: `Scenarios.NegativeLead` shows the edge 0 -> 1 with durations -5, 0, where the source 0 is not critical. Without that hypothesis the chain is only known to start at a task with earliest start 0. The same holds for the chain clause of `CriticalPath.FindCriticalPath`.
- Cyclic graphs beyond the flag. The program does not detect cycles. The model states when the order is incomplete and what the never-emitted vertices hold, but proves the scheduling properties (finite latest starts, the critical chain) only for acyclic graphs, where the schedule has a meaning.
- Forward.ForwardPass: states which orders are possible, not which one is emitted. The order is a duplicate-free topological order that starts with the seeded sources. Each relaxation step fixes the queue exactly (`Forward.RelaxSuccessors`), but the outer invariant does not carry the queue's order, so the FIFO order across steps is not pinned down.
- Scenarios.Diamond: fixes only the first and last vertex of the order. The contract of `ForwardPass` allows 1 and 2 in either order, while the program's FIFO queue emits 1 before 2.
