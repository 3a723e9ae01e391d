/** The scheduler: a registry of not-yet-started tasks keyed by name, the
    forward and reverse adjacency maps, and the tracing ledger.  The build
    phase mutates the maps in place; the pre-run check walks the forward map;
    the release loop of `run_inner` is modelled sequentially, with the task
    that completes next chosen nondeterministically. */
module Manager {
  import opened Wrappers
  import opened Graph
  import CycleCheck
  import TracingInfo
  import Schedule

  /** A registered task.  Only its name is visible to the scheduler; what it
      does, and whether it succeeds, is outside the model. */
  datatype Executor = Executor(name: Name)

  datatype RunError = NoStartNodes | CycleFound(from: Name, to: Name)

  /** How a spawned task came back: either way it carries its name. */
  datatype Outcome = Completed(name: Name) | Failed(name: Name)

  /** No two tasks of `es` share a name. */
  predicate DistinctNames(es: seq<Executor>)
  {
    forall i, j :: 0 <= i < j < |es| ==> es[i].name != es[j].name
  }

  function NamesOf(es: seq<Executor>): set<Name>
  {
    set e | e in es :: e.name
  }

  /** Splitting off the last task of a list with distinct names. */
  lemma SplitLast(es: seq<Executor>)
    requires DistinctNames(es) && es != []
    ensures DistinctNames(es[..|es| - 1])
    ensures NamesOf(es) == NamesOf(es[..|es| - 1]) + {es[|es| - 1].name}
    ensures es[|es| - 1].name !in NamesOf(es[..|es| - 1])
    ensures forall e :: e in es <==> e in es[..|es| - 1] || e == es[|es| - 1]
  {
    var prefix := es[..|es| - 1];
    var last := es[|es| - 1];
    assert es == prefix + [last];
    forall e | e in prefix ensures e.name != last.name {
      var i :| 0 <= i < |prefix| && prefix[i] == e;
      assert es[i] == e;
    }
  }

  /** Registry after `insert(e.name, e)` for each `e` of `es`, in order. */
  function RegisterAll(m: map<Name, Executor>, es: seq<Executor>): (r: map<Name, Executor>)
    requires DistinctNames(es)
    ensures r.Keys == m.Keys + NamesOf(es)
    ensures forall e :: e in es ==> r[e.name] == e
    ensures forall k :: k in m && k !in NamesOf(es) ==> r[k] == m[k]
    decreases |es|
  {
    if es == [] then m
    else
      SplitLast(es);
      RegisterAll(m, es[..|es| - 1])[es[|es| - 1].name := es[|es| - 1]]
  }

  class Manager {
    var timeoutMs: nat
    var adjacencyList: AdjList
    var revAdjacencyList: AdjList
    var exectors: map<Name, Executor>
    var tracing: TracingInfo.TracingInfoManager

    function Edges(): Adjacency
      reads this
    {
      Adjacency(adjacencyList, revAdjacencyList)
    }

    /** The graph is mirrored with duplicate-free lists, and every task is
        stored under its own name. */
    ghost predicate Valid()
      reads this
    {
      && Wf(Edges())
      && forall k :: k in exectors ==> exectors[k].name == k
    }

    /** Registered names with no reverse entry, i.e. no declared prerequisite. */
    ghost function StartNodes(): set<Name>
      reads this
    {
      set n | n in exectors && n !in revAdjacencyList
    }

    constructor (timeoutMs: nat)
      ensures Valid()
      ensures this.timeoutMs == timeoutMs
      ensures adjacencyList == map[] && revAdjacencyList == map[] && exectors == map[]
      ensures fresh(tracing) && tracing.tracingInfos == map[]
    {
      this.timeoutMs := timeoutMs;
      adjacencyList, revAdjacencyList, exectors := map[], map[], map[];
      tracing := new TracingInfo.TracingInfoManager();
    }

    /** Registers a task; a name already registered aborts the program in the
        source, so callers must not do it. */
    method AddExector(e: Executor)
      requires Valid()
      requires e.name !in exectors
      modifies this
      ensures Valid()
      ensures exectors == old(exectors)[e.name := e]
      ensures Edges() == old(Edges()) && tracing == old(tracing) && timeoutMs == old(timeoutMs)
    {
      exectors := exectors[e.name := e];
    }

    method AddExectors(es: seq<Executor>)
      requires Valid()
      requires DistinctNames(es)
      requires forall e :: e in es ==> e.name !in exectors
      modifies this
      ensures Valid()
      ensures exectors == RegisterAll(old(exectors), es)
      ensures Edges() == old(Edges()) && tracing == old(tracing) && timeoutMs == old(timeoutMs)
    {
      for i := 0 to |es|
        invariant Valid()
        invariant exectors == RegisterAll(old(exectors), es[..i])
        invariant Edges() == old(Edges()) && tracing == old(tracing) && timeoutMs == old(timeoutMs)
      {
        assert es[..i + 1][..i] == es[..i];
        assert es[i].name !in NamesOf(es[..i]) by {
          forall e | e in es[..i] ensures e.name != es[i].name {
            var k :| 0 <= k < i && es[k] == e;
          }
        }
        AddExector(es[i]);
      }
      assert es[..|es|] == es;
    }

    method AddEdge(from: Name, to: Name)
      requires Valid()
      modifies this
      ensures Valid()
      ensures Edges() == Graph.AddEdge(old(Edges()), from, to)
      ensures exectors == old(exectors) && tracing == old(tracing) && timeoutMs == old(timeoutMs)
    {
      if from in adjacencyList {
        if to in adjacencyList[from] {
          return;
        }
      }
      adjacencyList := Push(adjacencyList, from, to);
      revAdjacencyList := Push(revAdjacencyList, to, from);
      assert Edges() == Graph.AddEdge(old(Edges()), from, to);
    }

    method AddEdges(from: Name, tos: seq<Name>)
      requires Valid()
      modifies this
      ensures Valid()
      ensures Edges() == Graph.AddEdges(old(Edges()), from, tos)
      ensures exectors == old(exectors) && tracing == old(tracing) && timeoutMs == old(timeoutMs)
    {
      for i := 0 to |tos|
        invariant Valid()
        invariant Edges() == Graph.AddEdges(old(Edges()), from, tos[..i])
        invariant exectors == old(exectors) && tracing == old(tracing) && timeoutMs == old(timeoutMs)
      {
        assert tos[..i + 1][..i] == tos[..i];
        AddEdge(from, tos[i]);
      }
      assert tos[..|tos|] == tos;
    }

    method AddDep(name: Name, dep: Name)
      requires Valid()
      modifies this
      ensures Valid()
      ensures Edges() == Graph.AddDep(old(Edges()), name, dep)
      ensures exectors == old(exectors) && tracing == old(tracing) && timeoutMs == old(timeoutMs)
    {
      AddEdge(dep, name);
    }

    method AddDeps(name: Name, deps: seq<Name>)
      requires Valid()
      modifies this
      ensures Valid()
      ensures Edges() == Graph.AddDeps(old(Edges()), name, deps)
      ensures exectors == old(exectors) && tracing == old(tracing) && timeoutMs == old(timeoutMs)
    {
      for i := 0 to |deps|
        invariant Valid()
        invariant Edges() == Graph.AddDeps(old(Edges()), name, deps[..i])
        invariant exectors == old(exectors) && tracing == old(tracing) && timeoutMs == old(timeoutMs)
      {
        assert deps[..i + 1][..i] == deps[..i];
        AddDep(name, deps[i]);
      }
      assert deps[..|deps|] == deps;
    }

    /** Exactly the registered names without a reverse entry, each once (in
        the unspecified order of the registry's iteration). */
    method FindStartNodes() returns (starts: seq<Name>)
      ensures NoDup(starts)
      ensures forall n :: n in starts <==> n in exectors && n !in revAdjacencyList
    {
      starts := [];
      var remaining := exectors.Keys;
      while remaining != {}
        invariant remaining <= exectors.Keys
        invariant NoDup(starts)
        invariant forall n :: n in starts <==> n in exectors && n !in remaining && n !in revAdjacencyList
        decreases |remaining|
      {
        var name :| name in remaining;
        if name !in revAdjacencyList {
          starts := starts + [name];
        }
        remaining := remaining - {name};
      }
    }

    /** The cycle walk of the pre-run check: its answer is the one of
        `CycleCheck.Check` on the same forward map and start list. */
    method CheckCycle(starts: seq<Name>) returns (cycle: Option<(Name, Name)>)
      ensures cycle == CycleCheck.Check(adjacencyList, starts)
    {
      var adj := adjacencyList;
      var visited: CycleCheck.Visited := map[];
      var stack: seq<Name> := [];
      for i := 0 to |starts|
        invariant stack == starts[..i]
        invariant visited == CycleCheck.Unmark(map[], starts[..i])
      {
        assert starts[..i + 1][..i] == starts[..i];
        stack := stack + [starts[i]];
        visited := visited[starts[i] := false];
      }
      assert starts[..|starts|] == starts;
      CycleCheck.InitInv(adj, starts);
      ghost var u := CycleCheck.Universe(adj, starts);
      while stack != []
        invariant CycleCheck.WalkInv(adj, u, stack, visited)
        invariant CycleCheck.Walk(adj, u, stack, visited) == CycleCheck.Check(adj, starts)
        decreases |u - CycleCheck.Marked(visited)|, |stack|
      {
        ghost var stack0, v0 := stack, visited;
        var node := stack[|stack| - 1];
        stack := stack[..|stack| - 1];
        if node in adj {
          var hit;
          hit, stack, visited := CycleCheck.ScanNeighbors(adj[node], stack, visited);
          if hit.Some? {
            CycleCheck.WalkReports(adj, u, stack0, v0, adj[node], CycleCheck.FirstMarked(adj[node], v0).value);
            return Some((node, hit.value));
          }
        }
        visited := visited[node := true];
        CycleCheck.StepInv(adj, u, stack0, v0, stack, visited);
        CycleCheck.WalkStep(adj, u, stack0, v0, stack, visited);
      }
      return None;
    }

    /** The pre-run check: no start node is an error; otherwise the cycle walk
        runs from the start list, and the list is returned when it reports
        nothing.  It reads the manager and changes nothing. */
    method PreCheckAndFindStartNodes() returns (r: Result<seq<Name>, RunError>)
      ensures StartNodes() == {} <==> r == Err(NoStartNodes)
      ensures r.Ok? ==> NoDup(r.value) && forall n :: n in r.value <==> n in StartNodes()
      ensures r.Ok? ==> CycleCheck.Check(adjacencyList, r.value) == None
      // so on Ok no cycle is reachable from a start node
      ensures r.Ok? ==> forall p :: CycleCheck.IsPath(adjacencyList, p) && p != [] && p[0] in StartNodes() ==> NoDup(p)
      ensures r.Err? && r.error.CycleFound? ==>
        exists starts :: NoDup(starts) && (forall n :: n in starts <==> n in StartNodes())
                         && CycleCheck.Check(adjacencyList, starts) == Some((r.error.from, r.error.to))
    {
      var startNodes := FindStartNodes();
      if startNodes == [] {
        assert forall n :: n !in StartNodes();
        return Err(NoStartNodes);
      }
      assert startNodes[0] in StartNodes();
      var cycle := CheckCycle(startNodes);
      if cycle.Some? {
        return Err(CycleFound(cycle.value.0, cycle.value.1));
      }
      forall p | CycleCheck.IsPath(adjacencyList, p) && p != [] && p[0] in StartNodes() ensures NoDup(p) {
        CycleCheck.NoReportNoReachableCycle(adjacencyList, startNodes, p);
      }
      return Ok(startNodes);
    }

    /** The run state between steps of the release loop: the graph is `g`,
        the registry holds the names of `e0` not yet started, with their
        original values, and the schedule invariants hold. */
    ghost predicate RunState(g: Adjacency, e0: map<Name, Executor>, tracked: set<Name>, keys0: set<Name>,
                             handles: seq<Name>, ready: set<Name>, pending: set<Name>, log: seq<Schedule.Event>, now: int)
      reads this, tracing
    {
      && Valid()
      && Edges() == g
      && Schedule.Setup(g, e0.Keys)
      && tracing.tracingInfos.Keys == keys0
      && (forall k :: k in exectors ==> k in e0 && exectors[k] == e0[k])
      && Schedule.RunInv(g, e0.Keys, exectors.Keys, tracing.tracingInfos, tracked, handles, ready, pending, log, now)
    }

    /** Spawns pending `next`: takes it out of the registry (it is always
        there, so the source's unwrap never fails), starts its ledger record
        and adds it to the in-flight handles. */
    method Spawn(next: Name, clock: nat -> int, handles: seq<Name>, ready: set<Name>, tick: nat, ghost pending: set<Name>,
                 ghost g: Adjacency, ghost e0: map<Name, Executor>, ghost tracked: set<Name>, ghost keys0: set<Name>,
                 ghost log: seq<Schedule.Event>)
      returns (handles': seq<Name>, tick': nat, ghost log': seq<Schedule.Event>)
      requires next in pending
      requires forall a, b :: 0 <= a <= b ==> clock(a) <= clock(b)
      requires RunState(g, e0, tracked, keys0, handles, ready, pending, log, clock(tick))
      modifies this, tracing
      ensures RunState(g, e0, tracked, keys0, handles', ready, pending - {next}, log', clock(tick'))
      ensures tracing == old(tracing) && timeoutMs == old(timeoutMs)
      ensures handles' == handles + [next] && log' == log + [Schedule.Spawn(next)]
      ensures exectors == old(exectors) - {next} && tick' == tick + 1
      ensures tracing.tracingInfos == TracingInfo.LedgerStart(old(tracing.tracingInfos), next, clock(tick))
    {
      Schedule.SpawnStep(g, e0.Keys, exectors.Keys, tracing.tracingInfos, tracked, handles, ready,
                         pending, log, clock(tick), clock(tick + 1), next);
      var exector := exectors[next];
      exectors := exectors - {next};
      tracing.Start(exector.name, clock(tick));
      tick' := tick + 1;
      handles' := handles + [next];
      log' := log + [Schedule.Spawn(next)];
    }

    /** Spawns every start node, in order: each is taken out of the
        registry (it is always there) and its ledger record is started. */
    method SpawnStarts(starts: seq<Name>, clock: nat -> int,
                       ghost g: Adjacency, ghost e0: map<Name, Executor>, ghost tracked: set<Name>, ghost keys0: set<Name>)
      returns (handles: seq<Name>, tick: nat, ghost log: seq<Schedule.Event>)
      requires NoDup(starts)
      requires forall a, b :: 0 <= a <= b ==> clock(a) <= clock(b)
      requires RunState(g, e0, tracked, keys0, [], {}, Schedule.SetOf(starts), [], clock(0))
      modifies this, tracing
      ensures RunState(g, e0, tracked, keys0, handles, {}, {}, log, clock(tick))
      ensures tracing == old(tracing) && timeoutMs == old(timeoutMs)
    {
      handles, tick, log := [], 0, [];
      assert starts[0..] == starts;
      for i := 0 to |starts|
        invariant RunState(g, e0, tracked, keys0, handles, {}, Schedule.SetOf(starts[i..]), log, clock(tick))
        invariant tracing == old(tracing) && timeoutMs == old(timeoutMs)
      {
        Schedule.TakePending({}, starts, i);
        handles, tick, log := Spawn(starts[i], clock, handles, {}, tick, Schedule.SetOf(starts[i..]), g, e0, tracked, keys0, log);
      }
      assert starts[|starts|..] == [];
    }

    /** After a completion: walks the dependents `nexts` of the finished task
        and spawns each one whose prerequisites are now all ready. */
    method ReleaseDependents(nexts: seq<Name>, ready: set<Name>, clock: nat -> int, handles: seq<Name>, tick: nat,
                             ghost g: Adjacency, ghost e0: map<Name, Executor>, ghost tracked: set<Name>,
                             ghost keys0: set<Name>, ghost log: seq<Schedule.Event>)
      returns (handles': seq<Name>, tick': nat, ghost log': seq<Schedule.Event>)
      requires NoDup(nexts)
      requires forall a, b :: 0 <= a <= b ==> clock(a) <= clock(b)
      requires RunState(g, e0, tracked, keys0, handles, ready, Schedule.Released(g, ready) * Schedule.SetOf(nexts), log, clock(tick))
      modifies this, tracing
      ensures RunState(g, e0, tracked, keys0, handles', ready, {}, log', clock(tick'))
      ensures tracing == old(tracing) && timeoutMs == old(timeoutMs)
    {
      ghost var released := Schedule.Released(g, ready);
      handles', tick', log' := handles, tick, log;
      assert nexts[0..] == nexts;
      for j := 0 to |nexts|
        invariant RunState(g, e0, tracked, keys0, handles', ready, released * Schedule.SetOf(nexts[j..]), log', clock(tick'))
        invariant tracing == old(tracing) && timeoutMs == old(timeoutMs)
      {
        var next := nexts[j];
        if next in revAdjacencyList {
          var deps := revAdjacencyList[next];
          if forall d :: d in deps ==> d in ready {
            Schedule.TakePending(released, nexts, j);
            handles', tick', log' := Spawn(next, clock, handles', ready, tick', released * Schedule.SetOf(nexts[j..]),
                                           g, e0, tracked, keys0, log');
          } else {
            Schedule.SkipPending(released, nexts, j);
          }
        } else {
          Schedule.SkipPending(released, nexts, j);
        }
      }
      assert nexts[|nexts|..] == [];
    }

    /** The completion of in-flight `handles[i]`: it leaves the in-flight
        handles, is logged as failed if it failed, joins the ready set either
        way, and has its ledger record finished. */
    method FinishOne(i: nat, succeeded: Name -> bool, clock: nat -> int, handles: seq<Name>, ready: set<Name>,
                     tick: nat, ghost failed: set<Name>, ghost g: Adjacency, ghost e0: map<Name, Executor>,
                     ghost tracked: set<Name>, ghost keys0: set<Name>, ghost log: seq<Schedule.Event>)
      returns (name: Name, handles': seq<Name>, ready': set<Name>, tick': nat, ghost failed': set<Name>,
               ghost log': seq<Schedule.Event>)
      requires i < |handles|
      requires forall a, b :: 0 <= a <= b ==> clock(a) <= clock(b)
      requires RunState(g, e0, tracked, keys0, handles, ready, {}, log, clock(tick))
      requires failed == set n | n in ready && !succeeded(n)
      modifies tracing
      ensures name == handles[i] && name in e0.Keys && name !in ready && ready' == ready + {name}
      ensures RunState(g, e0, tracked, keys0, handles', ready',
                       Schedule.Released(g, ready') * Schedule.SetOf(Dependents(g, name)), log', clock(tick'))
      ensures failed' == set n | n in ready' && !succeeded(n)
      ensures handles' == handles[..i] + handles[i + 1..] && tick' == tick + 1
      ensures log' == log + [Schedule.Finish(name)]
      ensures tracing.tracingInfos == TracingInfo.LedgerDone(old(tracing.tracingInfos), name, clock(tick))
    {
      Schedule.FinishStep(g, e0.Keys, exectors.Keys, tracing.tracingInfos, tracked, handles, ready, log,
                          clock(tick), clock(tick + 1), i);
      var outcome := if succeeded(handles[i]) then Completed(handles[i]) else Failed(handles[i]);
      name := match outcome case Completed(n) => n case Failed(n) => n;
      handles' := handles[..i] + handles[i + 1..];
      failed' := if outcome.Failed? then failed + {name} else failed;
      ready' := ready + {name};
      tracing.Done(name, clock(tick));
      tick' := tick + 1;
      log' := log + [Schedule.Finish(name)];
    }

    /** One turn of the release loop: in-flight `handles[i]` completes and
        releases those of its dependents whose prerequisites are now all
        ready. */
    method CompleteOne(i: nat, succeeded: Name -> bool, clock: nat -> int, handles: seq<Name>, ready: set<Name>,
                       tick: nat, ghost failed: set<Name>, ghost g: Adjacency, ghost e0: map<Name, Executor>,
                       ghost tracked: set<Name>, ghost keys0: set<Name>, ghost log: seq<Schedule.Event>)
      returns (handles': seq<Name>, ready': set<Name>, tick': nat, ghost failed': set<Name>, ghost log': seq<Schedule.Event>)
      requires i < |handles|
      requires forall a, b :: 0 <= a <= b ==> clock(a) <= clock(b)
      requires RunState(g, e0, tracked, keys0, handles, ready, {}, log, clock(tick))
      requires failed == set n | n in ready && !succeeded(n)
      requires ready <= e0.Keys
      modifies this, tracing
      ensures RunState(g, e0, tracked, keys0, handles', ready', {}, log', clock(tick'))
      ensures tracing == old(tracing) && timeoutMs == old(timeoutMs)
      ensures failed' == set n | n in ready' && !succeeded(n)
      // exactly the completed task joins the ready set, whatever its outcome
      ensures handles[i] !in ready && ready' == ready + {handles[i]}
      // the tasks spawned are exactly its dependents whose prerequisites are
      // now all ready, and they leave the registry
      ensures Schedule.Started(handles', ready') ==
                Schedule.Started(handles, ready) + Schedule.Released(g, ready') * Schedule.SetOf(Dependents(g, handles[i]))
      ensures exectors.Keys == old(exectors).Keys - Schedule.Released(g, ready') * Schedule.SetOf(Dependents(g, handles[i]))
      ensures ready' <= e0.Keys
      ensures |e0.Keys - ready'| < |e0.Keys - ready|
    {
      ghost var live0 := exectors.Keys;
      var name;
      name, handles', ready', tick', failed', log' := FinishOne(i, succeeded, clock, handles, ready, tick, failed,
                                                              g, e0, tracked, keys0, log);
      assert e0.Keys - ready == (e0.Keys - ready') + {name};
      var nexts := if name in adjacencyList then adjacencyList[name] else [];
      assert nexts == Dependents(g, name);
      handles', tick', log' := ReleaseDependents(nexts, ready', clock, handles', tick', g, e0, tracked, keys0, log');
      Schedule.CompletionReleases(g, e0.Keys, live0, handles, ready, exectors.Keys, handles', name);
    }

    /** `run_inner` after the pre-run check passed: spawns the start nodes,
        then runs the release loop until nothing is in flight. */
    method RunFrom(startExectors: seq<Name>, succeeded: Name -> bool, clock: nat -> int)
      returns (ready: set<Name>, ghost failed: set<Name>, ghost log: seq<Schedule.Event>)
      requires Valid()
      requires forall a, b :: HasEdge(adjacencyList, a, b) ==> b in exectors
      requires forall a, b :: 0 <= a <= b ==> clock(a) <= clock(b)
      requires NoDup(startExectors) && Schedule.SetOf(startExectors) == StartNodes()
      modifies this, tracing
      ensures Valid()
      ensures Edges() == old(Edges()) && tracing == old(tracing) && timeoutMs == old(timeoutMs)
      ensures tracing.tracingInfos.Keys == old(tracing.tracingInfos.Keys)
      ensures ready == old(StartNodes()) + Schedule.Released(Edges(), ready)
      ensures exectors.Keys == old(exectors).Keys - ready
      ensures forall k :: k in exectors ==> exectors[k] == old(exectors)[k]
      ensures failed == set n | n in ready && !succeeded(n)
      ensures Schedule.LogInv(Edges(), [], ready, log)
      ensures forall k :: k in Schedule.Untouched(old(tracing.tracingInfos)) ==>
                tracing.tracingInfos[k].status == (if k in ready then TracingInfo.Done else TracingInfo.NotStarted)
      ensures forall k :: k in Schedule.Untouched(old(tracing.tracingInfos)) && k in ready ==>
                tracing.tracingInfos[k].startTime <= tracing.tracingInfos[k].endTime
      ensures forall n, p ::
                (n in Schedule.Untouched(old(tracing.tracingInfos)) && p in Schedule.Untouched(old(tracing.tracingInfos))
                 && n in ready && p in Prereqs(Edges(), n)) ==>
                tracing.tracingInfos[p].endTime <= tracing.tracingInfos[n].startTime
    {
      ghost var g := Edges();
      ghost var e0 := exectors;
      ghost var tracked := Schedule.Untouched(tracing.tracingInfos);
      ghost var keys0 := tracing.tracingInfos.Keys;
      assert Schedule.Starts(g, e0.Keys) == StartNodes();
      Schedule.InitRunInv(g, e0.Keys, tracing.tracingInfos, tracked, clock(0));
      var handles, tick;
      handles, tick, log := SpawnStarts(startExectors, clock, g, e0, tracked, keys0);
      ready := {};
      failed := {};
      while handles != []
        invariant RunState(g, e0, tracked, keys0, handles, ready, {}, log, clock(tick))
        invariant tracing == old(tracing) && timeoutMs == old(timeoutMs)
        invariant failed == set n | n in ready && !succeeded(n)
        invariant ready <= e0.Keys
        decreases |e0.Keys - ready|
      {
        var i :| 0 <= i < |handles|;
        handles, ready, tick, failed, log := CompleteOne(i, succeeded, clock, handles, ready, tick, failed,
                                                         g, e0, tracked, keys0, log);
      }
      Schedule.RunEnd(g, e0.Keys, exectors.Keys, tracing.tracingInfos, tracked, ready, log, clock(tick));
    }

    /** `run_inner`, with the tasks run one completion at a time: whichever
        in-flight task completes next (`select_all`) is chosen
        nondeterministically, `succeeded` says how each task comes back, and
        `clock(t)` is the value of the t-th clock reading.  A task that
        fails still counts as ready and releases its dependents.  `ready`,
        `failed` and `log` are the finished tasks, the failed ones and the
        spawn/finish history. */
    method RunInner(succeeded: Name -> bool, clock: nat -> int)
      returns (r: Result<(), RunError>, ghost ready: set<Name>, ghost failed: set<Name>, ghost log: seq<Schedule.Event>)
      requires Valid()
      requires forall a, b :: HasEdge(adjacencyList, a, b) ==> b in exectors
      requires forall a, b :: 0 <= a <= b ==> clock(a) <= clock(b)
      modifies this, tracing
      ensures Valid()
      ensures Edges() == old(Edges()) && tracing == old(tracing) && timeoutMs == old(timeoutMs)
      ensures tracing.tracingInfos.Keys == old(tracing.tracingInfos.Keys)
      ensures r == Err(NoStartNodes) <==> old(StartNodes()) == {}
      ensures r.Err? ==> exectors == old(exectors) && tracing.tracingInfos == old(tracing.tracingInfos)
      ensures r.Err? && r.error.CycleFound? ==> HasEdge(adjacencyList, r.error.from, r.error.to)
      // a reported cycle is what the walk reports from the start nodes
      ensures r.Err? && r.error.CycleFound? ==>
        exists starts :: NoDup(starts) && (forall n :: n in starts <==> n in StartNodes())
                         && CycleCheck.Check(adjacencyList, starts) == Some((r.error.from, r.error.to))
      // an Ok run passed the walk, so no cycle is reachable from a start node
      ensures r.Ok? ==>
        exists starts :: NoDup(starts) && (forall n :: n in starts <==> n in old(StartNodes()))
                         && CycleCheck.Check(adjacencyList, starts) == None
      ensures r.Ok? ==> forall p :: CycleCheck.IsPath(adjacencyList, p) && p != [] && p[0] in old(StartNodes()) ==> NoDup(p)
      // the tasks run are the start nodes and every task all of whose
      // prerequisites ran; every one of them left the registry
      ensures r.Ok? ==> ready == old(StartNodes()) + Schedule.Released(Edges(), ready)
      ensures r.Ok? ==> exectors.Keys == old(exectors).Keys - ready
      ensures r.Ok? ==> forall k :: k in exectors ==> exectors[k] == old(exectors)[k]
      ensures r.Ok? ==> failed == set n | n in ready && !succeeded(n)
      ensures r.Ok? ==> Schedule.LogInv(Edges(), [], ready, log)
      // the ledger records of untouched tasks follow the run
      ensures r.Ok? ==> forall k :: k in Schedule.Untouched(old(tracing.tracingInfos)) ==>
                tracing.tracingInfos[k].status == (if k in ready then TracingInfo.Done else TracingInfo.NotStarted)
      ensures r.Ok? ==> forall k :: k in Schedule.Untouched(old(tracing.tracingInfos)) && k in ready ==>
                tracing.tracingInfos[k].startTime <= tracing.tracingInfos[k].endTime
      ensures r.Ok? ==> forall n, p ::
                (n in Schedule.Untouched(old(tracing.tracingInfos)) && p in Schedule.Untouched(old(tracing.tracingInfos))
                 && n in ready && p in Prereqs(Edges(), n)) ==>
                tracing.tracingInfos[p].endTime <= tracing.tracingInfos[n].startTime
    {
      var pre := PreCheckAndFindStartNodes();
      if pre.Err? {
        if pre.error.CycleFound? {
          ghost var starts :| NoDup(starts) && (forall n :: n in starts <==> n in StartNodes())
                              && CycleCheck.Check(adjacencyList, starts) == Some((pre.error.from, pre.error.to));
        }
        return Err(pre.error), {}, {}, [];
      }
      ghost var starts0 := StartNodes();
      ready, failed, log := RunFrom(pre.value, succeeded, clock);
      assert NoDup(pre.value) && (forall n :: n in pre.value <==> n in starts0)
             && CycleCheck.Check(adjacencyList, pre.value) == None;
      return Ok(()), ready, failed, log;
    }
  }
}
