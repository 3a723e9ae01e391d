# cycle_loader scheduler, modelled in Dafny

`cycle_loader` runs a set of named asynchronous tasks ("exectors") in
dependency order. Before a run, the `Manager` is built step by step:

- tasks are registered by name;
- dependency edges are declared, each recorded twice, in the forward map
  `adjacency_list` (prerequisite to dependents) and in the reverse map
  `rev_adjacency_list` (dependent to prerequisites).

`run_inner` then works in two stages:

1. A pre-run check finds the start nodes, which are the registered tasks with
   no reverse entry. It fails with "no start nodes" when there are none.
   Otherwise it walks the forward map from them with one boolean `visited`
   flag per name. It fails with "find cycle", naming the edge, when a popped
   node has a dependent already flagged true.
2. If the check passes, `run_inner` spawns the start nodes, then loops.
   Whenever an in-flight task comes back, whether it succeeded or failed, the
   task joins the ready set. Each of its dependents whose prerequisites are
   now all ready is taken out of the registry and spawned.

A small ledger (`TracingInfoManager`) keeps one record per task name. Each
record is a three-state status, NotStarted → Doing → Done, with a start stamp
and an end stamp.

The model has these modules:

- `TracingInfo` (tracing_info.dfy): the ledger record as a value (`Record`)
  with its two transitions as functions.
  - The classes `TracingInfo` and `TracingInfoManager` are the mutable
    structs. Their methods are proved against those functions.
  - Replay lemmas cover arbitrary call sequences.
  - Wall-clock reads become a `now` parameter.
- `Graph` (graph.dfy): the two adjacency maps as a value.
  - The mirror and duplicate-free invariants are defined here.
  - The edge-building operations are functions that keep those invariants.
- `CycleCheck` (cycle_check.dfy): the pre-run walk as a terminating ghost
  function `Walk`, with the invariant that makes it terminate. Lemmas prove
  that it reports every cycle reachable from a start node, and run it on two
  concrete graphs.
- `Schedule` (schedule.dfy): the state of the release loop as values.
  - The state is the in-flight list, the ready set, the still-registered
    names, the ledger and a spawn/finish event log.
  - The invariants are defined here, and one lemma per loop step proves
    that step keeps them.
- `Manager` (manager.dfy): the `Manager` class.
  - It holds the registry, both adjacency maps and the ledger as fields.
  - The build methods are proved against the `Graph` functions. The cycle
    walk is a `while` loop proved equal to `CycleCheck.Check`.
  - `run_inner` is a sequential loop. The task that completes next is chosen
    nondeterministically, and an outcome oracle `succeeded` says how each task
    comes back.

What the run is proved to do (`Manager.Manager.RunInner`):

- no `unwrap` on the registry can fail;
- no task is spawned twice;
- a task that fails still counts as ready;
- a task is spawned only after every one of its prerequisites has finished,
  as shown by the event log;
- the loop ends;
- when it ends, the ready set is exactly the start nodes together with every
  task all of whose prerequisites are ready. These are the tasks that left
  the registry.

Two behaviours of the code are worth knowing when reading the model:

- **The single `visited` flag rejects some graphs that have no cycle.** On
  the diamond A→B, A→C, B→D, C→D started from A, the walk expands C and D
  before B. When B is popped, D is already flagged true, so the walk reports
  the edge B→D as a cycle. `CycleCheck.DiamondReportsFalseCycle` proves this.
  So although a diamond is a shape the scheduler is meant to run, the code as
  written refuses it. The model follows the code.
  In the other direction, `CycleCheck.CheckReportsReachableCycle` proves that
  the walk reports something whenever a cycle is reachable from a start node.
  So an Ok result from the pre-run check means no such cycle exists.
- **The ledger the Manager uses is empty.** `Manager::new` creates an empty
  `TracingInfoManager` and nothing in the Manager calls `add_tracing_info`.
  Every `start`/`done` call made by a run therefore takes the missing-key
  branch and changes nothing. The model keeps the ledger general, since its
  keys may hold any records: the run never adds or removes a key. The ledger
  clauses of `RunInner` are limited to the keys that were NotStarted when the
  run began (see "Left out").

## Model

| member | source | states |
|---|---|---|
| TracingInfo.TracingInfo.constructor | src/tracing_info.rs:50-56 | a new record is NotStarted with both stamps 0 |
| TracingInfo.StartRecord | src/tracing_info.rs:58-69 | status never moves back; the record changes iff it was NotStarted, and then it becomes Doing stamped `now` with the end stamp kept; otherwise it is unchanged |
| TracingInfo.DoneRecord | src/tracing_info.rs:71-81 | status never moves back; the record changes iff it was Doing, and then it becomes Done stamped `now` with the start stamp kept; otherwise it is unchanged |
| TracingInfo.TracingInfo.Start | src/tracing_info.rs:58-69 | the fields after the call are `StartRecord` of the fields before it |
| TracingInfo.TracingInfo.Done | src/tracing_info.rs:71-81 | the fields after the call are `DoneRecord` of the fields before it |
| TracingInfo.ReplayNeverBackward | src/tracing_info.rs:58-81 | under any sequence of start/done calls the status never moves back, and a Done record never changes again |
| TracingInfo.ReplayStampsOrdered | src/tracing_info.rs:58-81 | with clock readings that never go backwards, a record that reaches Done has start stamp ≤ end stamp |
| TracingInfo.TracingInfoManager.constructor | src/tracing_info.rs:100-104 | the ledger starts empty |
| TracingInfo.TracingInfoManager.AddTracingInfo | src/tracing_info.rs:106-108 | the key set gains `key`, its record is a fresh NotStarted one (overwriting any old one), and every other entry is kept |
| TracingInfo.LedgerStart | src/tracing_info.rs:110-116 | same key set; a missing key leaves the ledger unchanged; a present key's record becomes `StartRecord` of it, and every other entry is kept |
| TracingInfo.TracingInfoManager.Start | src/tracing_info.rs:110-116 | the ledger after the call is `LedgerStart` of the ledger before it |
| TracingInfo.LedgerDone | src/tracing_info.rs:118-124 | same key set; a missing key leaves the ledger unchanged; a present key's record becomes `DoneRecord` of it, and every other entry is kept |
| TracingInfo.TracingInfoManager.Done | src/tracing_info.rs:118-124 | the ledger after the call is `LedgerDone` of the ledger before it |
| TracingInfo.TracingInfoManager.GetTracingInfo | src/tracing_info.rs:126-130 | Err (naming the key) iff the key is absent; otherwise Ok with the stored record |
| Manager.Manager.constructor | src/manager.rs:26-35 | keeps the given timeout; registry and both adjacency maps empty; a fresh, empty ledger; the manager invariant holds |
| Manager.Manager.AddExector | src/manager.rs:41-47 | with the name not yet registered: exactly that key is added, mapped to the task, all other entries, the graph and the ledger are unchanged, and the invariant is kept |
| Manager.RegisterAll | src/manager.rs:49-53 | registering distinct names in order adds exactly those keys, each mapped to its own task, and keeps every other entry |
| Manager.Manager.AddExectors | src/manager.rs:49-53 | the registry afterwards is `RegisterAll` of the registry before; graph and ledger unchanged |
| Graph.AddEdge | src/manager.rs:55-70 | the forward edges gain exactly (from, to); an edge already present leaves both maps unchanged; mirroring and duplicate-free lists are preserved, so the reverse map gains exactly (to, from) |
| Graph.AddEdgeIdempotent | src/manager.rs:55-60 | adding an edge twice equals adding it once |
| Manager.Manager.AddEdge | src/manager.rs:55-70 | the two maps afterwards are `Graph.AddEdge` of the maps before; registry and ledger unchanged; the invariant is kept |
| Graph.AddEdges | src/manager.rs:72-76 | the forward edges gain exactly (from, b) for each b of the list; the invariant is preserved |
| Manager.Manager.AddEdges | src/manager.rs:72-76 | the maps afterwards are `Graph.AddEdges` of the maps before |
| Graph.AddDep | src/manager.rs:78-80 | equals `AddEdge(dep, name)`; on a well-formed graph the reverse map gains exactly `dep` as a prerequisite of `name` |
| Manager.Manager.AddDep | src/manager.rs:78-80 | the maps afterwards are `Graph.AddDep` of the maps before |
| Graph.AddDeps | src/manager.rs:82-86 | the forward edges gain exactly (d, name) for each d of the list; the invariant is preserved |
| Manager.Manager.AddDeps | src/manager.rs:82-86 | the maps afterwards are `Graph.AddDeps` of the maps before |
| Manager.Manager.FindStartNodes | src/manager.rs:194-203 | a duplicate-free list holding exactly the registered names with no reverse entry |
| CycleCheck.FirstMarked | src/manager.rs:174-176 | the index of the first dependent flagged true, if any: every dependent before it is unflagged, and None iff no dependent is flagged |
| CycleCheck.UnmarkMarks | src/manager.rs:168-169 | flagging names false removes exactly those names' true flags |
| CycleCheck.ScanNeighbors | src/manager.rs:173-186 | the inner scan stops at exactly the first dependent flagged true and reports it; otherwise it pushes every dependent in order and flags each false, so a name flagged true is never pushed |
| CycleCheck.Walk | src/manager.rs:172-189 | the walk always terminates, because each pop either flags a new name of a finite universe or shrinks the stack; a reported pair is an edge of the forward map |
| CycleCheck.StepInv | src/manager.rs:172-189 | a pop that reports nothing keeps the walk invariant and decreases the (unflagged names, stack length) measure |
| CycleCheck.WalkStep | src/manager.rs:172-189 | a pop that reports nothing leaves the outcome of the walk unchanged |
| CycleCheck.WalkReports | src/manager.rs:172-180 | a pop whose first true-flagged dependent is `nbrs[j]` ends the walk with the edge (popped node, `nbrs[j]`) |
| CycleCheck.InitInv | src/manager.rs:165-170 | pushing the start nodes, each flagged false, establishes the walk invariant |
| CycleCheck.Check | src/manager.rs:164-191 | the outcome of the check for a start list; a reported pair is a forward edge |
| CycleCheck.LassoFromDependent | src/manager.rs:173-185 | a path from a node that revisits some name gives such a path from one of the node's dependents, which are the names the scan pushes |
| CycleCheck.WalkFindsLasso | src/manager.rs:172-189 | a walk whose stack holds the first name of a path that revisits some name always reports an edge |
| CycleCheck.CheckReportsReachableCycle | src/manager.rs:164-189 | for every graph and start list: a cycle reachable from a start node makes the check report an edge |
| CycleCheck.NoReportNoReachableCycle | src/manager.rs:164-191 | when the check reports nothing, every path from a start node is free of repeated names |
| Manager.Manager.CheckCycle | src/manager.rs:164-189 | the stack-and-flag loop returns exactly `CycleCheck.Check` for the forward map and the start list |
| CycleCheck.DiamondReportsFalseCycle | src/manager.rs:164-189 | on the acyclic diamond A→B, A→C, B→D, C→D from A, the check reports the edge B→D |
| CycleCheck.ReachableCycleReported | src/manager.rs:164-189 | on the one graph S→A, A→B, B→A from S, the reported edge is B→A, the edge that closes the cycle |
| Manager.Manager.PreCheckAndFindStartNodes | src/manager.rs:158-192 | Err(NoStartNodes) iff there are no start nodes; Ok returns a duplicate-free list of exactly the start nodes, on which the walk reports nothing, so no path from a start node repeats a name; a reported cycle is what the walk reports for that list; the manager is not modified |
| Schedule.InitRunInv | src/manager.rs:114-120 | before the first spawn, with every start node pending, nothing ready and nothing in flight, all run invariants hold |
| Schedule.SpawnStep | src/manager.rs:114-118 | spawning a pending name finds it still in the registry (the unwrap cannot fail) and keeps all run invariants, with the name now in flight and its ledger record started |
| Manager.Manager.Spawn | src/manager.rs:143-145 | the registry loses exactly `next`; the ledger becomes `LedgerStart` of the old one at the current clock reading; `next` is appended to the in-flight list and a Spawn event to the log; the clock advances by one reading; the run state is kept |
| Manager.Manager.SpawnStarts | src/manager.rs:114-118 | spawns every start node, leaving nothing pending, with the run state kept |
| Schedule.FinishStep | src/manager.rs:122-136 | the completed task was registered and not yet ready; removing it from the in-flight list, adding it to the ready set and finishing its ledger record keeps all run invariants, with exactly its newly released dependents pending |
| Manager.Manager.FinishOne | src/manager.rs:122-136 | `handles[i]` leaves the in-flight list, which otherwise keeps its order, and joins the ready set whatever its outcome; it is recorded as failed iff it failed; the ledger becomes `LedgerDone` of the old one at the current clock reading; a Finish event is logged; the run state is kept with its released dependents pending |
| Schedule.NewlyReleased | src/manager.rs:139-149 | one more ready name releases no fewer tasks, and the newly released ones are exactly its released dependents |
| Manager.Manager.ReleaseDependents | src/manager.rs:138-149 | walking the dependents in order, spawns each one that has a reverse entry all of whose names are ready, and afterwards nothing is pending |
| Schedule.CompletionReleases | src/manager.rs:135-151 | over one completion, the set of started tasks grows by exactly the completed task's released dependents, and those leave the registry |
| Manager.Manager.CompleteOne | src/manager.rs:121-152 | one iteration: exactly the completed task joins the ready set, exactly its released dependents are spawned and leave the registry, and the number of registered names not yet ready decreases |
| Schedule.RunEnd | src/manager.rs:121-154 | with nothing in flight: the ready set is the start nodes plus every released task, the registry holds exactly the rest, the log is complete, and tracked ledger records are Done iff ready, each with start ≤ end and no earlier than its prerequisites' ends |
| Manager.Manager.RunFrom | src/manager.rs:114-154 | from the start list, the loop ends with the ready set closed as above, the others still registered with their original tasks, the failed set those whose outcome failed, and a log in which every spawn follows the finish of each prerequisite |
| Manager.Manager.RunInner | src/manager.rs:111-156 | Err(NoStartNodes) iff there are no start nodes; on Err nothing changes, and a reported cycle is a forward edge and is what the walk reports from the start nodes; on Ok the walk reported nothing from the start nodes, so no cycle is reachable from them, and the results of `RunFrom` hold, with the graph and the ledger's key set unchanged |
| Schedule.StartedPrereqsReady | src/manager.rs:141-142 | every started task has all of its prerequisites ready |

## Left out

- The tokio runtime is not modelled: `tokio::spawn`, `future::select_all`, and
  `run`'s `tokio::time::timeout` with its deadline error and logging
  (src/manager.rs:88-109). Completion order is a nondeterministic choice of
  in-flight index. Each task's result is the oracle `succeeded`. A run that
  hits the deadline is not modelled.
- `build_handle` and the optional middleware (src/manager.rs:37-39,
  src/manager.rs:205-228) are not modelled. What a task does is outside the
  model. src/exector.rs and src/middlerware.rs are not part of this model: a
  task is only its name.
- A `JoinError` from `select_all` (a task that panicked or was cancelled)
  makes the source panic (src/manager.rs:123-126). That is a runtime fault,
  not scheduling logic, and is not modelled.
- `select_all` removes the completed handle by `swap_remove`; the model
  removes it in place and keeps the order of the rest. The set of in-flight
  names is the same. Because the next completion is an arbitrary index anyway,
  no reachable behaviour is lost.
- `Local::now()` readings are the values `clock(0), clock(1), …` of a clock
  parameter. A TracingInfo method takes a `now` argument instead.
- `Display` of Status, TracingInfo and TracingInfoManager, and the
  `tracing::warn!`/`error!`/`info!` calls, are not modelled. A refused ledger
  transition, a missing key and a failed task are modelled only by their effect
  on state.
- Timestamps (`i64`) and the timeout (`u64`) are unbounded integers. Nothing
  in the model adds to or compares them beyond ordering.
- Manager.Manager.AddExector: the duplicate-name panic is a `requires`, so a
  caller that registers a name twice is outside the model.
- Manager.Manager.RunInner: requires every edge target to be a registered name
  (and a clock that never goes backwards). Without it the source panics at
  the `unwrap` of src/manager.rs:143, but only if such a target is actually
  released. The model asks for it of every edge.
- Manager.Manager.RunInner: `all_ready_exector_names` is local to the source.
  The model returns it, together with the failed set and the event log, as
  ghost outputs, so that the postcondition can talk about them.
- Manager.Manager.RunInner: the ledger clauses cover only the keys whose
  record was NotStarted when the run began. Records already Doing or Done are
  only known to keep their key. The spawn and finish steps state the exact
  ledger update (`LedgerStart`/`LedgerDone`). `Manager::new` leaves the
  ledger empty and nothing adds to it, so for the shipped program every
  clause about ledger records is vacuous.
