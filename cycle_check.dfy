/** The cycle check run before scheduling: a stack walk over the forward map
    from the start nodes with a single boolean `visited` flag per name
    (absent: never pushed; false: pushed; true: expanded).  Popping a node
    scans its dependents in order: a dependent already marked true stops the
    walk with that edge as the reported cycle; any other dependent is pushed
    and flagged false.  The popped node is then flagged true. */
module CycleCheck {
  import opened Wrappers
  import opened Graph

  type Visited = map<Name, bool>

  predicate IsMarked(v: Visited, n: Name)
  {
    n in v && v[n]
  }

  ghost function Marked(v: Visited): set<Name>
  {
    set n | n in v && v[n]
  }

  function Neighbours(adj: AdjList, n: Name): seq<Name>
  {
    if n in adj then adj[n] else []
  }

  /** Every name the walk can push: the start nodes and every edge target. */
  ghost function Universe(adj: AdjList, starts: seq<Name>): set<Name>
  {
    (set s | s in starts) + (set a, b | a in adj && b in adj[a] :: b)
  }

  /** Index of the first name of `nbrs` already marked true, if any. */
  function FirstMarked(nbrs: seq<Name>, v: Visited): (r: Option<nat>)
    ensures r.Some? ==> r.value < |nbrs| && IsMarked(v, nbrs[r.value])
    ensures r.Some? ==> forall k :: 0 <= k < r.value ==> !IsMarked(v, nbrs[k])
    ensures r.None? <==> forall k :: 0 <= k < |nbrs| ==> !IsMarked(v, nbrs[k])
    decreases |nbrs|
  {
    if nbrs == [] then None
    else if IsMarked(v, nbrs[0]) then Some(0)
    else
      match FirstMarked(nbrs[1..], v)
      case None => None
      case Some(i) => Some(i + 1)
  }

  /** The `visited` map after `visited.insert(n, false)` for each `n` of `ns`, in order. */
  function Unmark(v: Visited, ns: seq<Name>): Visited
    decreases |ns|
  {
    if ns == [] then v else Unmark(v, ns[..|ns| - 1])[ns[|ns| - 1] := false]
  }

  /** Flagging names false only ever removes marks, and exactly those names'. */
  lemma {:induction false} UnmarkMarks(v: Visited, ns: seq<Name>)
    ensures forall n :: IsMarked(Unmark(v, ns), n) <==> IsMarked(v, n) && n !in ns
    decreases |ns|
  {
    if ns != [] {
      var prefix := ns[..|ns| - 1];
      UnmarkMarks(v, prefix);
      assert forall n :: n in ns <==> n in prefix || n == ns[|ns| - 1] by {
        assert ns == prefix + [ns[|ns| - 1]];
      }
    }
  }

  /** The scan of one popped node's dependents (the inner `for` of the walk):
      stops at the first dependent marked true; otherwise every dependent has
      been pushed and flagged false. */
  method ScanNeighbors(neighbors: seq<Name>, stack: seq<Name>, visited: Visited)
    returns (hit: Option<Name>, stack': seq<Name>, visited': Visited)
    ensures hit.Some? <==> FirstMarked(neighbors, visited).Some?
    ensures hit.Some? ==> hit.value == neighbors[FirstMarked(neighbors, visited).value]
    ensures hit.None? ==> stack' == stack + neighbors && visited' == Unmark(visited, neighbors)
  {
    stack', visited' := stack, visited;
    for j := 0 to |neighbors|
      invariant stack' == stack + neighbors[..j]
      invariant visited' == Unmark(visited, neighbors[..j])
      invariant forall k :: 0 <= k < j ==> !IsMarked(visited, neighbors[k])
    {
      var neighbor := neighbors[j];
      UnmarkMarks(visited, neighbors[..j]);
      if neighbor in visited' && visited'[neighbor] {
        assert FirstMarked(neighbors, visited) == Some(j);
        return Some(neighbor), stack', visited';
      }
      assert !IsMarked(visited, neighbor) by {
        if neighbor in neighbors[..j] {
          var k :| 0 <= k < j && neighbors[..j][k] == neighbor;
        }
      }
      assert neighbors[..j + 1] == neighbors[..j] + [neighbor];
      assert neighbors[..j + 1][..j] == neighbors[..j];
      stack' := stack' + [neighbor];
      visited' := visited'[neighbor := false];
    }
    assert neighbors[..|neighbors|] == neighbors;
    return None, stack', visited';
  }

  /** Every edge target is in `u`. */
  ghost predicate Closed(adj: AdjList, u: set<Name>)
  {
    forall a, b :: HasEdge(adj, a, b) ==> b in u
  }

  /** A stack entry that is already marked true either has a dependent marked
      true (so popping it reports a cycle) or has all its dependents higher up
      the stack (so by the time it is popped they are all marked). */
  ghost predicate Settled(adj: AdjList, v: Visited, stack: seq<Name>, i: nat)
    requires i < |stack|
  {
    || !IsMarked(v, stack[i])
    || (exists t :: t in Neighbours(adj, stack[i]) && IsMarked(v, t))
    || (forall t :: t in Neighbours(adj, stack[i]) ==> t in stack[i + 1..])
  }

  ghost predicate WalkInv(adj: AdjList, u: set<Name>, stack: seq<Name>, v: Visited)
  {
    && Closed(adj, u)
    && (forall i :: 0 <= i < |stack| ==> stack[i] in u)
    && Marked(v) <= u
    && (forall i :: 0 <= i < |stack| ==> Settled(adj, v, stack, i))
  }

  /** One pop that reports nothing keeps the invariant, and either marks a new
      name of the universe or shrinks the stack with the marks unchanged. */
  lemma StepInv(adj: AdjList, u: set<Name>, stack: seq<Name>, v: Visited, stack': seq<Name>, v': Visited)
    requires WalkInv(adj, u, stack, v)
    requires stack != []
    requires FirstMarked(Neighbours(adj, stack[|stack| - 1]), v).None?
    requires stack' == stack[..|stack| - 1] + Neighbours(adj, stack[|stack| - 1])
    requires v' == Unmark(v, Neighbours(adj, stack[|stack| - 1]))[stack[|stack| - 1] := true]
    ensures WalkInv(adj, u, stack', v')
    ensures |u - Marked(v')| < |u - Marked(v)| || (Marked(v') == Marked(v) && |stack'| < |stack|)
  {
    if IsMarked(v, stack[|stack| - 1]) {
      StepInvMarkedTop(adj, u, stack, v, stack', v');
    } else {
      StepInvUnmarkedTop(adj, u, stack, v, stack', v');
    }
  }

  /** The popped entry was already marked: it has no dependents left to push
      (they are all higher up, so popped and marked), the marks stay the same
      and the stack shrinks. */
  lemma StepInvMarkedTop(adj: AdjList, u: set<Name>, stack: seq<Name>, v: Visited, stack': seq<Name>, v': Visited)
    requires WalkInv(adj, u, stack, v)
    requires stack != [] && IsMarked(v, stack[|stack| - 1])
    requires FirstMarked(Neighbours(adj, stack[|stack| - 1]), v).None?
    requires stack' == stack[..|stack| - 1] + Neighbours(adj, stack[|stack| - 1])
    requires v' == Unmark(v, Neighbours(adj, stack[|stack| - 1]))[stack[|stack| - 1] := true]
    ensures WalkInv(adj, u, stack', v')
    ensures Marked(v') == Marked(v) && |stack'| < |stack|
  {
    var top := |stack| - 1;
    var x := stack[top];
    var rest := stack[..top];
    StepMarks(v, Neighbours(adj, x), x);
    StepInUniverse(adj, u, stack, stack');
    StepSettledMarkedTop(adj, stack, rest, v, v');
    assert stack' == rest;
  }

  /** The popped entry was unmarked: it becomes marked, so one more name of
      the universe is marked. */
  lemma StepInvUnmarkedTop(adj: AdjList, u: set<Name>, stack: seq<Name>, v: Visited, stack': seq<Name>, v': Visited)
    requires WalkInv(adj, u, stack, v)
    requires stack != [] && !IsMarked(v, stack[|stack| - 1])
    requires FirstMarked(Neighbours(adj, stack[|stack| - 1]), v).None?
    requires stack' == stack[..|stack| - 1] + Neighbours(adj, stack[|stack| - 1])
    requires v' == Unmark(v, Neighbours(adj, stack[|stack| - 1]))[stack[|stack| - 1] := true]
    ensures WalkInv(adj, u, stack', v')
    ensures |u - Marked(v')| < |u - Marked(v)|
  {
    var top := |stack| - 1;
    var x := stack[top];
    StepMarks(v, Neighbours(adj, x), x);
    StepInUniverse(adj, u, stack, stack');
    MeasureDrops(u, Marked(v), x);
    StepSettledUnmarkedTop(adj, stack, stack', v, v');
  }

  /** Marking one more name of `u` shrinks the unmarked part of `u`. */
  lemma MeasureDrops(u: set<Name>, m: set<Name>, x: Name)
    requires x in u && x !in m
    ensures |u - (m + {x})| < |u - m|
  {
    assert u - (m + {x}) == (u - m) - {x};
  }

  lemma StepInUniverse(adj: AdjList, u: set<Name>, stack: seq<Name>, stack': seq<Name>)
    requires Closed(adj, u)
    requires forall i :: 0 <= i < |stack| ==> stack[i] in u
    requires stack != []
    requires stack' == stack[..|stack| - 1] + Neighbours(adj, stack[|stack| - 1])
    ensures forall i :: 0 <= i < |stack'| ==> stack'[i] in u
  {
    var top := |stack| - 1;
    var nbrs := Neighbours(adj, stack[top]);
    forall i | 0 <= i < |stack'| ensures stack'[i] in u {
      if i < top {
        assert stack'[i] == stack[i];
      } else {
        assert stack'[i] == nbrs[i - top];
        assert HasEdge(adj, stack[top], nbrs[i - top]);
      }
    }
  }

  /** Popping `x` with no marked dependent: the marks afterwards are the old
      ones plus `x`. */
  lemma StepMarks(v: Visited, nbrs: seq<Name>, x: Name)
    requires forall k :: 0 <= k < |nbrs| ==> !IsMarked(v, nbrs[k])
    ensures forall n :: IsMarked(Unmark(v, nbrs)[x := true], n) <==> IsMarked(v, n) || n == x
    ensures Marked(Unmark(v, nbrs)[x := true]) == Marked(v) + {x}
  {
    UnmarkMarks(v, nbrs);
    assert forall n :: n in nbrs ==> !IsMarked(v, n);
    var v' := Unmark(v, nbrs)[x := true];
    assert forall n :: IsMarked(v', n) <==> IsMarked(Unmark(v, nbrs), n) || n == x;
    assert forall n :: n in Marked(v') <==> n in Marked(v) + {x} by {
      assert forall n :: n in Marked(v') <==> IsMarked(v', n);
      assert forall n :: n in Marked(v) <==> IsMarked(v, n);
    }
  }

  /** The head of a non-empty sequence is one of its elements; needed where
      the context already rules the non-empty case out. */
  lemma NonEmptyHasHead(s: seq<Name>)
    ensures s != [] ==> s[0] in s
  {
  }

  lemma StepSettledMarkedTop(adj: AdjList, stack: seq<Name>, rest: seq<Name>, v: Visited, v': Visited)
    requires stack != [] && rest == stack[..|stack| - 1]
    requires forall i :: 0 <= i < |stack| ==> Settled(adj, v, stack, i)
    requires IsMarked(v, stack[|stack| - 1])
    requires FirstMarked(Neighbours(adj, stack[|stack| - 1]), v).None?
    requires forall n :: IsMarked(v', n) <==> IsMarked(v, n) || n == stack[|stack| - 1]
    ensures Neighbours(adj, stack[|stack| - 1]) == []
    ensures forall i :: 0 <= i < |rest| ==> Settled(adj, v', rest, i)
  {
    var top := |stack| - 1;
    var x := stack[top];
    var nbrs := Neighbours(adj, x);
    assert Settled(adj, v, stack, top);
    assert forall t :: t in nbrs ==> !IsMarked(v, t);
    assert stack[top + 1..] == [];
    assert forall t :: t !in nbrs;
    NonEmptyHasHead(nbrs);
    forall i | 0 <= i < top ensures Settled(adj, v', rest, i) {
      assert stack[..top][i + 1..] == stack[i + 1..top];
      if stack[i] != x {
        SettledAfterPop(adj, v, v', stack, i, x);
      }
    }
  }

  lemma StepSettledUnmarkedTop(adj: AdjList, stack: seq<Name>, stack': seq<Name>, v: Visited, v': Visited)
    requires stack != []
    requires stack' == stack[..|stack| - 1] + Neighbours(adj, stack[|stack| - 1])
    requires forall i :: 0 <= i < |stack| ==> Settled(adj, v, stack, i)
    requires !IsMarked(v, stack[|stack| - 1])
    requires FirstMarked(Neighbours(adj, stack[|stack| - 1]), v).None?
    requires forall n :: IsMarked(v', n) <==> IsMarked(v, n) || n == stack[|stack| - 1]
    ensures forall i :: 0 <= i < |stack'| ==> Settled(adj, v', stack', i)
  {
    var top := |stack| - 1;
    var x := stack[top];
    var nbrs := Neighbours(adj, x);
    forall i | 0 <= i < |stack'| ensures Settled(adj, v', stack', i) {
      if i < top {
        assert stack'[i] == stack[i];
        if stack[i] == x {
          forall t | t in nbrs ensures t in stack'[i + 1..] {
            var k :| 0 <= k < |nbrs| && nbrs[k] == t;
            assert stack'[i + 1..][top - i - 1 + k] == t;
          }
        } else {
          SettledAfterPop(adj, v, v', stack, i, x);
          assert stack'[i + 1..] == stack[i + 1..top] + nbrs;
        }
      } else {
        assert stack'[i] == nbrs[i - top];
        if IsMarked(v', stack'[i]) {
          assert !IsMarked(v, nbrs[i - top]);
          assert stack'[i] == x;
          assert x in Neighbours(adj, stack'[i]) && IsMarked(v', x);
        }
      }
    }
  }

  /** An entry below the top, other than the popped name, stays settled once the
      top is popped and marked, with its part of the stack cut at the top. */
  lemma SettledAfterPop(adj: AdjList, v: Visited, v': Visited, stack: seq<Name>, i: nat, x: Name)
    requires |stack| > 0 && i < |stack| - 1 && x == stack[|stack| - 1] && stack[i] != x
    requires Settled(adj, v, stack, i)
    requires forall n :: IsMarked(v', n) <==> IsMarked(v, n) || n == x
    ensures
      var s := stack[i];
      || !IsMarked(v', s)
      || (exists t :: t in Neighbours(adj, s) && IsMarked(v', t))
      || (forall t :: t in Neighbours(adj, s) ==> t in stack[i + 1..|stack| - 1])
  {
    var s := stack[i];
    var top := |stack| - 1;
    if IsMarked(v', s) && !exists t :: t in Neighbours(adj, s) && IsMarked(v', t) {
      forall t | t in Neighbours(adj, s) ensures t in stack[i + 1..top] {
        assert t != x;
        assert t in stack[i + 1..];
        var k :| i + 1 <= k < |stack| && stack[k] == t;
        assert k < top;
        assert stack[i + 1..top][k - i - 1] == t;
      }
    }
  }

  /** The walk itself: None when the stack empties, otherwise the first edge
      found whose target is already marked true.  Terminates because a name
      marked true is never pushed again. */
  ghost function Walk(adj: AdjList, u: set<Name>, stack: seq<Name>, v: Visited): (r: Option<(Name, Name)>)
    requires WalkInv(adj, u, stack, v)
    ensures r.Some? ==> HasEdge(adj, r.value.0, r.value.1)
    decreases |u - Marked(v)|, |stack|
  {
    if stack == [] then None
    else
      var x := stack[|stack| - 1];
      var nbrs := Neighbours(adj, x);
      match FirstMarked(nbrs, v)
      case Some(j) => Some((x, nbrs[j]))
      case None =>
        var stack' := stack[..|stack| - 1] + nbrs;
        var v' := Unmark(v, nbrs)[x := true];
        StepInv(adj, u, stack, v, stack', v');
        Walk(adj, u, stack', v')
  }

  lemma InitInv(adj: AdjList, starts: seq<Name>)
    ensures WalkInv(adj, Universe(adj, starts), starts, Unmark(map[], starts))
  {
    UnmarkMarks(map[], starts);
    var u := Universe(adj, starts);
    forall a, b | HasEdge(adj, a, b) ensures b in u {
    }
    var v := Unmark(map[], starts);
    assert forall n :: n in Marked(v) <==> IsMarked(v, n);
    assert Marked(v) == {};
  }

  /** The check of `pre_check_and_find_start_nodes` once the start list is known:
      the stack and the flags start with every start node pushed and flagged false. */
  ghost function Check(adj: AdjList, starts: seq<Name>): (r: Option<(Name, Name)>)
    ensures r.Some? ==> HasEdge(adj, r.value.0, r.value.1)
  {
    InitInv(adj, starts);
    Walk(adj, Universe(adj, starts), starts, Unmark(map[], starts))
  }

  /** A pop that reports nothing leaves the outcome of the walk unchanged. */
  lemma WalkStep(adj: AdjList, u: set<Name>, stack: seq<Name>, v: Visited, stack': seq<Name>, v': Visited)
    requires WalkInv(adj, u, stack, v)
    requires stack != []
    requires FirstMarked(Neighbours(adj, stack[|stack| - 1]), v).None?
    requires stack' == stack[..|stack| - 1] + Neighbours(adj, stack[|stack| - 1])
    requires v' == Unmark(v, Neighbours(adj, stack[|stack| - 1]))[stack[|stack| - 1] := true]
    ensures WalkInv(adj, u, stack', v')
    ensures Walk(adj, u, stack, v) == Walk(adj, u, stack', v')
  {
    StepInv(adj, u, stack, v, stack', v');
  }

  /** A pop whose dependent `nbrs[j]` is the first one marked true ends the
      walk with that edge. */
  lemma WalkReports(adj: AdjList, u: set<Name>, stack: seq<Name>, v: Visited, nbrs: seq<Name>, j: nat)
    requires WalkInv(adj, u, stack, v)
    requires stack != [] && nbrs == Neighbours(adj, stack[|stack| - 1])
    requires j < |nbrs| && IsMarked(v, nbrs[j])
    requires forall k :: 0 <= k < j ==> !IsMarked(v, nbrs[k])
    ensures Walk(adj, u, stack, v) == Some((stack[|stack| - 1], nbrs[j]))
  {
    assert FirstMarked(nbrs, v) == Some(j);
  }

  /** `p` follows forward edges. */
  ghost predicate IsPath(adj: AdjList, p: seq<Name>)
  {
    forall k :: 0 <= k < |p| - 1 ==> HasEdge(adj, p[k], p[k + 1])
  }

  /** A path from `p[0]` that visits some name twice (so reaches a cycle)
      gives such a path from one of the dependents of `p[0]`. */
  lemma LassoFromDependent(adj: AdjList, p: seq<Name>, i: nat, j: nat) returns (q: seq<Name>, i': nat, j': nat)
    requires IsPath(adj, p) && i < j < |p| && p[i] == p[j]
    ensures IsPath(adj, q) && i' < j' < |q| && q[i'] == q[j']
    ensures q[0] in Neighbours(adj, p[0])
  {
    assert HasEdge(adj, p[0], p[1]);
    if i > 0 {
      q, i', j' := p[1..], i - 1, j - 1;
      forall k | 0 <= k < |q| - 1 ensures HasEdge(adj, q[k], q[k + 1]) {
        assert q[k] == p[k + 1] && q[k + 1] == p[k + 2];
      }
    } else {
      // p[0] itself is revisited at j: go round from p[1] back to p[1]
      q, i', j' := p[1..j + 1] + [p[1]], 0, j;
      forall k | 0 <= k < |q| - 1 ensures HasEdge(adj, q[k], q[k + 1]) {
        if k < j - 1 {
          assert q[k] == p[k + 1] && q[k + 1] == p[k + 2];
        } else {
          assert q[k] == p[j] && q[k + 1] == p[1];
        }
      }
    }
  }

  /** Popping the top of `stack` and pushing its dependents keeps some path
      that reaches a cycle starting on the stack. */
  lemma LassoAfterPop(adj: AdjList, stack: seq<Name>, p: seq<Name>, i: nat, j: nat) returns (q: seq<Name>, i': nat, j': nat)
    requires IsPath(adj, p) && i < j < |p| && p[i] == p[j]
    requires p[0] in stack
    ensures IsPath(adj, q) && i' < j' < |q| && q[i'] == q[j']
    ensures q[0] in stack[..|stack| - 1] + Neighbours(adj, stack[|stack| - 1])
  {
    var rest := stack[..|stack| - 1];
    if p[0] in rest {
      q, i', j' := p, i, j;
    } else {
      assert stack == rest + [stack[|stack| - 1]];
      q, i', j' := LassoFromDependent(adj, p, i, j);
    }
  }

  /** A walk whose stack holds the start of a path that reaches a cycle
      reports something: a pop that reports nothing replaces the popped name
      by its dependents, so such a path keeps starting on the stack, and the
      walk cannot run out of stack. */
  lemma {:induction false} WalkFindsLasso(adj: AdjList, u: set<Name>, stack: seq<Name>, v: Visited,
                                          p: seq<Name>, i: nat, j: nat)
    requires WalkInv(adj, u, stack, v)
    requires IsPath(adj, p) && i < j < |p| && p[i] == p[j]
    requires p[0] in stack
    ensures Walk(adj, u, stack, v).Some?
    decreases |u - Marked(v)|, |stack|
  {
    var x := stack[|stack| - 1];
    var nbrs := Neighbours(adj, x);
    if FirstMarked(nbrs, v).None? {
      var stack' := stack[..|stack| - 1] + nbrs;
      var v' := Unmark(v, nbrs)[x := true];
      StepInv(adj, u, stack, v, stack', v');
      var q, i', j' := LassoAfterPop(adj, stack, p, i, j);
      WalkFindsLasso(adj, u, stack', v', q, i', j');
    }
  }

  /** Every cycle reachable from a start node makes the check report
      something (not necessarily an edge of that cycle; and a report does not
      mean there is a cycle, see `DiamondReportsFalseCycle`). */
  lemma CheckReportsReachableCycle(adj: AdjList, starts: seq<Name>, p: seq<Name>, i: nat, j: nat)
    requires IsPath(adj, p) && i < j < |p| && p[i] == p[j]
    requires p[0] in starts
    ensures Check(adj, starts).Some?
  {
    InitInv(adj, starts);
    WalkFindsLasso(adj, Universe(adj, starts), starts, Unmark(map[], starts), p, i, j);
  }

  /** When the check reports nothing, every path from a start node is free
      of repeated names: no cycle is reachable from the start nodes. */
  lemma NoReportNoReachableCycle(adj: AdjList, starts: seq<Name>, p: seq<Name>)
    requires IsPath(adj, p) && p != [] && p[0] in starts
    ensures Check(adj, starts).None? ==> NoDup(p)
  {
    if !NoDup(p) {
      var i, j :| 0 <= i < j < |p| && p[i] == p[j];
      CheckReportsReachableCycle(adj, starts, p, i, j);
    }
  }

  const Diamond: AdjList := map["A" := ["B", "C"], "B" := ["D"], "C" := ["D"]]

  lemma DiamondFirstPops()
    ensures WalkInv(Diamond, Universe(Diamond, ["A"]), ["B", "C"], map["A" := true, "B" := false, "C" := false])
    ensures Check(Diamond, ["A"]) == Walk(Diamond, Universe(Diamond, ["A"]), ["B", "C"], map["A" := true, "B" := false, "C" := false])
  {
    InitInv(Diamond, ["A"]);
    assert ["A"][..0] == [];
    assert Unmark(map[], ["A"]) == map["A" := false];
    assert ["B", "C"][..1] == ["B"] && ["B"][..0] == [];
    WalkStep(Diamond, Universe(Diamond, ["A"]), ["A"], map["A" := false], ["B", "C"], map["A" := true, "B" := false, "C" := false]);
  }

  lemma DiamondLastPops(u: set<Name>)
    requires WalkInv(Diamond, u, ["B", "C"], map["A" := true, "B" := false, "C" := false])
    ensures Walk(Diamond, u, ["B", "C"], map["A" := true, "B" := false, "C" := false]) == Some(("B", "D"))
  {
    var v1 := map["A" := true, "B" := false, "C" := false];
    var v2 := map["A" := true, "B" := false, "C" := true, "D" := false];
    var v3 := v2["D" := true];
    assert ["D"][..0] == [];
    assert ["B", "C"][..1] + ["D"] == ["B", "D"];
    WalkStep(Diamond, u, ["B", "C"], v1, ["B", "D"], v2);
    assert ["B", "D"][..1] + [] == ["B"];
    WalkStep(Diamond, u, ["B", "D"], v2, ["B"], v3);
    assert FirstMarked(["D"], v3) == Some(0);
  }

  /** The diamond A -> B, A -> C, B -> D, C -> D has no cycle, yet the check
      reports the edge B -> D: D is marked true once reached through C and is
      then seen again from B. */
  lemma DiamondReportsFalseCycle()
    ensures Check(Diamond, ["A"]) == Some(("B", "D"))
  {
    DiamondFirstPops();
    DiamondLastPops(Universe(Diamond, ["A"]));
  }

  const Loop: AdjList := map["S" := ["A"], "A" := ["B"], "B" := ["A"]]

  lemma LoopFirstPop()
    ensures WalkInv(Loop, Universe(Loop, ["S"]), ["A"], map["S" := true, "A" := false])
    ensures Check(Loop, ["S"]) == Walk(Loop, Universe(Loop, ["S"]), ["A"], map["S" := true, "A" := false])
  {
    InitInv(Loop, ["S"]);
    var v0: Visited := map["S" := false];
    var v1: Visited := map["S" := true, "A" := false];
    assert ["S"][..0] == [] && ["A"][..0] == [];
    assert Unmark(map[], ["S"]) == v0;
    assert Neighbours(Loop, "S") == ["A"];
    assert FirstMarked(["A"], v0) == None;
    assert Unmark(v0, ["A"])["S" := true] == v1;
    assert ["S"][..0] + ["A"] == ["A"];
    WalkStep(Loop, Universe(Loop, ["S"]), ["S"], v0, ["A"], v1);
  }

  lemma LoopLastPops(u: set<Name>)
    requires WalkInv(Loop, u, ["A"], map["S" := true, "A" := false])
    ensures Walk(Loop, u, ["A"], map["S" := true, "A" := false]) == Some(("B", "A"))
  {
    var v2 := map["S" := true, "A" := true, "B" := false];
    assert ["B"][..0] == [];
    assert ["A"][..0] + ["B"] == ["B"];
    WalkStep(Loop, u, ["A"], map["S" := true, "A" := false], ["B"], v2);
    assert FirstMarked(["A"], v2) == Some(0);
  }

  /** A genuine cycle A -> B -> A entered from the start S is reported at the
      edge that closes it. */
  lemma ReachableCycleReported()
    ensures Check(Loop, ["S"]) == Some(("B", "A"))
  {
    LoopFirstPop();
    LoopLastPops(Universe(Loop, ["S"]));
  }
}
