/** The state of the release loop of `run_inner`, as values: which tasks are
    in flight (`handles`), which have finished (`ready`), which names still
    wait in the registry (`live`), the ledger, and an event log that records
    the order in which tasks were spawned and finished.  The invariants here
    are kept by every step of the loop; the lemmas prove each step keeps them. */
module Schedule {
  import opened Graph
  import T = TracingInfo

  /** What the loop did, in order. */
  datatype Event = Spawn(name: Name) | Finish(name: Name)

  function SetOf(s: seq<Name>): set<Name>
  {
    set n | n in s
  }

  /** Tasks taken out of the registry: finished ones and those in flight. */
  function Started(handles: seq<Name>, ready: set<Name>): set<Name>
  {
    ready + SetOf(handles)
  }

  /** Registered names with no reverse entry. */
  ghost function Starts(g: Adjacency, e0: set<Name>): set<Name>
  {
    set n | n in e0 && n !in g.reverse
  }

  /** Names with a reverse entry all of whose prerequisites are in `ready`. */
  ghost function Released(g: Adjacency, ready: set<Name>): set<Name>
  {
    set n | n in g.reverse && forall p :: p in g.reverse[n] ==> p in ready
  }

  /** The graph is well formed and every edge target is registered. */
  ghost predicate Setup(g: Adjacency, e0: set<Name>)
  {
    && Wf(g)
    && forall a, b :: HasEdge(g.forward, a, b) ==> b in e0
  }

  /** The ledger keys whose record has not been started. */
  ghost function Untouched(ledger: map<Name, T.Record>): set<Name>
  {
    set k | k in ledger && ledger[k].status == T.NotStarted
  }

  /** `pending`: names that are due to be spawned but have not been yet. */
  ghost predicate SchedInv(g: Adjacency, e0: set<Name>, live: set<Name>, handles: seq<Name>, ready: set<Name>, pending: set<Name>)
  {
    && NoDup(handles)
    && (forall n :: n in handles ==> n !in ready)
    && pending <= Starts(g, e0) + Released(g, ready)
    && Started(handles, ready) == (Starts(g, e0) + Released(g, ready)) - pending
    && live == e0 - Started(handles, ready)
  }

  /** The event log: each task spawned at most once and finished at most
      once, finished only after it was spawned, and spawned only after every
      one of its prerequisites finished. */
  ghost predicate LogInv(g: Adjacency, handles: seq<Name>, ready: set<Name>, log: seq<Event>)
  {
    && (forall n :: Spawn(n) in log <==> n in Started(handles, ready))
    && (forall n :: Finish(n) in log <==> n in ready)
    && Distinct(log)
    && Ordered(g, log)
  }

  /** No event occurs twice. */
  ghost predicate Distinct(log: seq<Event>)
  {
    forall i, j :: 0 <= i < j < |log| ==> log[i] != log[j]
  }

  /** Every Finish follows the Spawn of the same task, and every Spawn
      follows the Finish of each prerequisite of its task. */
  ghost predicate Ordered(g: Adjacency, log: seq<Event>)
  {
    && (forall i {:trigger log[..i]} :: 0 <= i < |log| && log[i].Finish? ==> Spawn(log[i].name) in log[..i])
    && (forall i {:trigger log[..i]} :: 0 <= i < |log| && log[i].Spawn? ==> PrereqsFinished(g, log[..i], log[i].name))
  }

  /** Every prerequisite of `n` has a Finish event in `log`. */
  ghost predicate PrereqsFinished(g: Adjacency, log: seq<Event>, n: Name)
  {
    forall p :: p in Prereqs(g, n) ==> Finish(p) in log
  }

  function StatusOf(k: Name, handles: seq<Name>, ready: set<Name>): T.Status
  {
    if k in ready then T.Done else if k in handles then T.Doing else T.NotStarted
  }

  /** The records of `tracked` (those NotStarted when the run began) follow
      the run; stamps are never later than the clock reading `now`; and a
      task's start stamp is no earlier than the end stamp of any of its
      prerequisites. */
  ghost predicate LedgerInv(g: Adjacency, ledger: map<Name, T.Record>, tracked: set<Name>,
                            handles: seq<Name>, ready: set<Name>, now: int)
  {
    && tracked <= ledger.Keys
    && (forall k :: k in tracked ==> ledger[k].status == StatusOf(k, handles, ready))
    && (forall k :: k in tracked && k in Started(handles, ready) ==> ledger[k].startTime <= now)
    && (forall k :: k in tracked && k in ready ==> ledger[k].endTime <= now)
    && (forall k :: k in tracked && k in ready ==> ledger[k].startTime <= ledger[k].endTime)
    && (forall n :: n in tracked && n in Started(handles, ready) ==> StartsAfterPrereqs(g, ledger, tracked, n))
  }

  /** The start stamp of `n` is no earlier than the end stamp of any tracked
      prerequisite of `n`. */
  ghost predicate StartsAfterPrereqs(g: Adjacency, ledger: map<Name, T.Record>, tracked: set<Name>, n: Name)
    requires tracked <= ledger.Keys && n in ledger
  {
    forall p :: p in tracked && p in Prereqs(g, n) ==> ledger[p].endTime <= ledger[n].startTime
  }

  ghost predicate RunInv(g: Adjacency, e0: set<Name>, live: set<Name>, ledger: map<Name, T.Record>, tracked: set<Name>,
                         handles: seq<Name>, ready: set<Name>, pending: set<Name>, log: seq<Event>, now: int)
  {
    && SchedInv(g, e0, live, handles, ready, pending)
    && LogInv(g, handles, ready, log)
    && LedgerInv(g, ledger, tracked, handles, ready, now)
  }

  /** Every reverse key is a registered name. */
  lemma ReverseKeysRegistered(g: Adjacency, e0: set<Name>, n: Name)
    requires Setup(g, e0)
    requires n in g.reverse
    ensures n in e0
  {
    var p := g.reverse[n][0];
    assert HasEdge(g.reverse, n, p);
  }

  /** A started task has every prerequisite finished, given that nothing
      pending has been started. */
  lemma StartedPrereqsReady(g: Adjacency, e0: set<Name>, live: set<Name>, handles: seq<Name>, ready: set<Name>, pending: set<Name>)
    requires SchedInv(g, e0, live, handles, ready, pending)
    ensures forall n, p :: n in Started(handles, ready) && p in Prereqs(g, n) ==> p in ready
  {
  }

  /** Before the first spawn: every start node is pending. */
  lemma InitRunInv(g: Adjacency, e0: set<Name>, ledger: map<Name, T.Record>, tracked: set<Name>, now: int)
    requires Setup(g, e0)
    requires tracked <= ledger.Keys
    requires forall k :: k in tracked ==> ledger[k].status == T.NotStarted
    ensures Released(g, {}) == {}
    ensures RunInv(g, e0, e0, ledger, tracked, [], {}, Starts(g, e0), [], now)
  {
    forall n | n in g.reverse ensures n !in Released(g, {}) {
      assert g.reverse[n][0] in g.reverse[n];
    }
  }

  /** Spawning a pending name: it is still in the registry, and afterwards it
      is in flight and no longer pending. */
  lemma SpawnStep(g: Adjacency, e0: set<Name>, live: set<Name>, ledger: map<Name, T.Record>, tracked: set<Name>,
                  handles: seq<Name>, ready: set<Name>, pending: set<Name>, log: seq<Event>, now: int, now': int, next: Name)
    requires Setup(g, e0)
    requires RunInv(g, e0, live, ledger, tracked, handles, ready, pending, log, now)
    requires next in pending && now <= now'
    ensures next in live
    ensures RunInv(g, e0, live - {next}, T.LedgerStart(ledger, next, now), tracked,
                   handles + [next], ready, pending - {next}, log + [Spawn(next)], now')
  {
    if next in g.reverse {
      ReverseKeysRegistered(g, e0, next);
    }
    var handles' := handles + [next];
    assert SetOf(handles') == SetOf(handles) + {next};
    assert next !in handles;
    assert NoDup(handles') by {
      forall i, j | 0 <= i < j < |handles'| ensures handles'[i] != handles'[j] {
        if j < |handles| {
          assert handles'[i] == handles[i] && handles'[j] == handles[j];
        } else {
          assert handles'[i] == handles[i];
        }
      }
    }
    assert forall p :: p in Prereqs(g, next) ==> p in ready;
    StartedPrereqsReady(g, e0, live, handles, ready, pending);
    LogSpawn(g, handles, ready, log, next);
    LedgerSpawn(g, ledger, tracked, handles, ready, now, now', next);
  }

  lemma LogSpawn(g: Adjacency, handles: seq<Name>, ready: set<Name>, log: seq<Event>, next: Name)
    requires LogInv(g, handles, ready, log)
    requires next !in Started(handles, ready)
    requires forall p :: p in Prereqs(g, next) ==> p in ready
    ensures LogInv(g, handles + [next], ready, log + [Spawn(next)])
  {
    assert SetOf(handles + [next]) == SetOf(handles) + {next};
    assert PrereqsFinished(g, log, next);
    AppendEvent(g, log, Spawn(next));
  }

  /** Appending an event that is new and whose predecessors are in the log
      keeps the log duplicate-free and ordered. */
  lemma AppendEvent(g: Adjacency, log: seq<Event>, e: Event)
    requires Distinct(log) && Ordered(g, log)
    requires e !in log
    requires e.Finish? ==> Spawn(e.name) in log
    requires e.Spawn? ==> PrereqsFinished(g, log, e.name)
    ensures Distinct(log + [e]) && Ordered(g, log + [e])
    ensures forall x :: x in log + [e] <==> x in log || x == e
  {
    var log' := log + [e];
    forall i, j | 0 <= i < j < |log'| ensures log'[i] != log'[j] {
      assert log'[i] == log[i] && log[i] in log;
      if j < |log| {
        assert log'[j] == log[j];
      }
    }
    forall i | 0 <= i < |log'| && log'[i].Finish? ensures Spawn(log'[i].name) in log'[..i] {
      if i < |log| {
        assert log'[..i] == log[..i] && log'[i] == log[i];
      } else {
        assert log'[..i] == log;
      }
    }
    forall i | 0 <= i < |log'| && log'[i].Spawn? ensures PrereqsFinished(g, log'[..i], log'[i].name) {
      if i < |log| {
        assert log'[..i] == log[..i] && log'[i] == log[i];
      } else {
        assert log'[..i] == log;
      }
    }
  }

  lemma LedgerSpawn(g: Adjacency, ledger: map<Name, T.Record>, tracked: set<Name>,
                    handles: seq<Name>, ready: set<Name>, now: int, now': int, next: Name)
    requires LedgerInv(g, ledger, tracked, handles, ready, now)
    requires now <= now'
    requires next !in Started(handles, ready)
    requires forall p :: p in Prereqs(g, next) ==> p in ready
    requires forall n, p :: n in Started(handles, ready) && p in Prereqs(g, n) ==> p in ready
    ensures LedgerInv(g, T.LedgerStart(ledger, next, now), tracked, handles + [next], ready, now')
  {
    var ledger' := T.LedgerStart(ledger, next, now);
    var handles' := handles + [next];
    assert Started(handles', ready) == Started(handles, ready) + {next} by {
      assert SetOf(handles') == SetOf(handles) + {next};
    }
    forall k | k in tracked ensures ledger'[k].status == StatusOf(k, handles', ready) {
      if k == next {
        assert ledger[k].status == T.NotStarted;
      }
    }
  }

  /** The completion of in-flight `handles[i]`, whatever its outcome: it joins
      `ready`, and the pending set becomes the dependents it released. */
  lemma FinishStep(g: Adjacency, e0: set<Name>, live: set<Name>, ledger: map<Name, T.Record>, tracked: set<Name>,
                   handles: seq<Name>, ready: set<Name>, log: seq<Event>, now: int, now': int, i: nat)
    requires Setup(g, e0)
    requires RunInv(g, e0, live, ledger, tracked, handles, ready, {}, log, now)
    requires i < |handles| && now <= now'
    ensures var name := handles[i];
            var handles' := handles[..i] + handles[i + 1..];
            && name in e0 - ready
            && RunInv(g, e0, live, T.LedgerDone(ledger, name, now), tracked, handles', ready + {name},
                      Released(g, ready + {name}) * SetOf(Dependents(g, name)), log + [Finish(name)], now')
  {
    var name := handles[i];
    var handles' := handles[..i] + handles[i + 1..];
    var ready' := ready + {name};
    HandlesRemove(handles, i);
    assert Started(handles', ready') == Started(handles, ready);
    NewlyReleased(g, ready, name);
    forall n | n in Starts(g, e0) ensures n !in Released(g, ready') {
    }
    if name in g.reverse {
      ReverseKeysRegistered(g, e0, name);
    }
    assert name in e0;
    assert SchedInv(g, e0, live, handles', ready', Released(g, ready') * SetOf(Dependents(g, name)));
    StartedPrereqsReady(g, e0, live, handles, ready, {});
    LogFinish(g, handles, ready, log, i);
    LedgerFinish(g, ledger, tracked, handles, ready, now, now', i);
  }

  /** Between two quiet points (nothing pending) around the completion of
      `name`, the tasks started in between are exactly the dependents of
      `name` whose prerequisites are now all ready, and they left the
      registry. */
  lemma CompletionReleases(g: Adjacency, e0: set<Name>, live: set<Name>, handles: seq<Name>, ready: set<Name>,
                           live': set<Name>, handles': seq<Name>, name: Name)
    requires Wf(g)
    requires name !in ready
    requires SchedInv(g, e0, live, handles, ready, {})
    requires SchedInv(g, e0, live', handles', ready + {name}, {})
    ensures Started(handles', ready + {name}) ==
              Started(handles, ready) + Released(g, ready + {name}) * SetOf(Dependents(g, name))
    ensures live' == live - Released(g, ready + {name}) * SetOf(Dependents(g, name))
  {
    NewlyReleased(g, ready, name);
  }

  lemma HandlesRemove(handles: seq<Name>, i: nat)
    requires NoDup(handles) && i < |handles|
    ensures NoDup(handles[..i] + handles[i + 1..])
    ensures SetOf(handles[..i] + handles[i + 1..]) == SetOf(handles) - {handles[i]}
    ensures handles[i] !in handles[..i] + handles[i + 1..]
  {
    var handles' := handles[..i] + handles[i + 1..];
    forall k | 0 <= k < |handles'| ensures handles'[k] == handles[if k < i then k else k + 1] {
    }
    assert NoDup(handles') by {
      forall a, b | 0 <= a < b < |handles'| ensures handles'[a] != handles'[b] {
        assert handles'[a] == handles[if a < i then a else a + 1];
        assert handles'[b] == handles[if b < i then b else b + 1];
      }
    }
    forall n | n in handles' ensures n in handles && n != handles[i] {
      var k :| 0 <= k < |handles'| && handles'[k] == n;
      assert handles'[k] == handles[if k < i then k else k + 1];
    }
    forall n | n in handles && n != handles[i] ensures n in handles' {
      var k :| 0 <= k < |handles| && handles[k] == n;
      assert handles'[if k < i then k else k - 1] == n;
    }
    assert SetOf(handles') == SetOf(handles) - {handles[i]};
  }

  /** The names that a completion of `name` releases are exactly the
      dependents of `name` whose prerequisites are now all ready. */
  lemma NewlyReleased(g: Adjacency, ready: set<Name>, name: Name)
    requires Wf(g)
    requires name !in ready
    ensures Released(g, ready) <= Released(g, ready + {name})
    ensures Released(g, ready + {name}) - Released(g, ready) == Released(g, ready + {name}) * SetOf(Dependents(g, name))
  {
    var ready' := ready + {name};
    forall n | n in Released(g, ready') - Released(g, ready) ensures n in SetOf(Dependents(g, name)) {
      var p :| p in g.reverse[n] && p !in ready;
      assert p == name;
      assert HasEdge(g.reverse, n, name);
      assert HasEdge(g.forward, name, n);
    }
    forall n | n in Released(g, ready') * SetOf(Dependents(g, name)) ensures n !in Released(g, ready) {
      assert HasEdge(g.forward, name, n);
      assert HasEdge(g.reverse, n, name);
    }
  }

  lemma LogFinish(g: Adjacency, handles: seq<Name>, ready: set<Name>, log: seq<Event>, i: nat)
    requires LogInv(g, handles, ready, log)
    requires NoDup(handles) && i < |handles|
    requires forall n :: n in handles ==> n !in ready
    ensures LogInv(g, handles[..i] + handles[i + 1..], ready + {handles[i]}, log + [Finish(handles[i])])
  {
    var name := handles[i];
    HandlesRemove(handles, i);
    assert Started(handles[..i] + handles[i + 1..], ready + {name}) == Started(handles, ready);
    assert Spawn(name) in log;
    AppendEvent(g, log, Finish(name));
  }

  lemma LedgerFinish(g: Adjacency, ledger: map<Name, T.Record>, tracked: set<Name>,
                     handles: seq<Name>, ready: set<Name>, now: int, now': int, i: nat)
    requires LedgerInv(g, ledger, tracked, handles, ready, now)
    requires now <= now'
    requires NoDup(handles) && i < |handles|
    requires forall n :: n in handles ==> n !in ready
    requires forall n, p :: n in Started(handles, ready) && p in Prereqs(g, n) ==> p in ready
    ensures LedgerInv(g, T.LedgerDone(ledger, handles[i], now), tracked,
                      handles[..i] + handles[i + 1..], ready + {handles[i]}, now')
  {
    var name := handles[i];
    var handles' := handles[..i] + handles[i + 1..];
    var ready' := ready + {name};
    var ledger' := T.LedgerDone(ledger, name, now);
    HandlesRemove(handles, i);
    assert Started(handles', ready') == Started(handles, ready);
    forall k | k in tracked ensures ledger'[k].status == StatusOf(k, handles', ready') {
      if k == name {
        assert ledger[k].status == T.Doing;
      } else {
        assert k in handles' <==> k in handles;
      }
    }
  }

  /** When nothing is in flight and nothing is pending, the ready set is
      closed: it holds the start nodes and exactly the tasks whose
      prerequisites are all in it, and the registry holds the rest. */
  lemma RunEnd(g: Adjacency, e0: set<Name>, live: set<Name>, ledger: map<Name, T.Record>, tracked: set<Name>,
               ready: set<Name>, log: seq<Event>, now: int)
    requires RunInv(g, e0, live, ledger, tracked, [], ready, {}, log, now)
    ensures ready == Starts(g, e0) + Released(g, ready)
    ensures live == e0 - ready
    ensures LogInv(g, [], ready, log)
    ensures forall k :: k in tracked ==> ledger[k].status == (if k in ready then T.Done else T.NotStarted)
    ensures forall k :: k in tracked && k in ready ==> ledger[k].startTime <= ledger[k].endTime
    ensures forall n, p :: n in tracked && p in tracked && n in ready && p in Prereqs(g, n) ==>
              ledger[p].endTime <= ledger[n].startTime
  {
    assert Started([], ready) == ready;
  }

  /** Looking at a name outside `released` leaves the pending set as it is. */
  lemma SkipPending(released: set<Name>, nexts: seq<Name>, j: nat)
    requires j < |nexts|
    requires nexts[j] !in released
    ensures released * SetOf(nexts[j..]) == released * SetOf(nexts[j + 1..])
  {
    assert nexts[j..] == [nexts[j]] + nexts[j + 1..];
  }

  /** Spawning `nexts[j]` removes exactly it from the pending set. */
  lemma TakePending(released: set<Name>, nexts: seq<Name>, j: nat)
    requires j < |nexts| && NoDup(nexts)
    ensures SetOf(nexts[j..]) - {nexts[j]} == SetOf(nexts[j + 1..])
    ensures released * SetOf(nexts[j..]) - {nexts[j]} == released * SetOf(nexts[j + 1..])
  {
    assert nexts[j..] == [nexts[j]] + nexts[j + 1..];
    assert forall k :: j + 1 <= k < |nexts| ==> nexts[k] != nexts[j];
    assert nexts[j] !in nexts[j + 1..];
  }
}
