/** The dependency graph of the scheduler as a value: the forward map
    (prerequisite -> its direct dependents) and its mirror, the reverse map
    (dependent -> its direct prerequisites), each an ordered list per key. */
module Graph {

  type Name = string

  type AdjList = map<Name, seq<Name>>

  datatype Adjacency = Adjacency(forward: AdjList, reverse: AdjList)

  const Empty: Adjacency := Adjacency(map[], map[])

  /** `to` is listed under `from`. */
  predicate HasEdge(adj: AdjList, from: Name, to: Name)
  {
    from in adj && to in adj[from]
  }

  predicate NoDup(s: seq<Name>)
  {
    forall i, j :: 0 <= i < j < |s| ==> s[i] != s[j]
  }

  /** Every list is non-empty (a key only appears with its first push) and
      free of duplicates. */
  ghost predicate ListsWf(adj: AdjList)
  {
    forall k :: k in adj ==> adj[k] != [] && NoDup(adj[k])
  }

  /** An edge is in the forward map iff its mirror is in the reverse map. */
  ghost predicate Mirrored(g: Adjacency)
  {
    forall a, b :: HasEdge(g.forward, a, b) <==> HasEdge(g.reverse, b, a)
  }

  ghost predicate Wf(g: Adjacency)
  {
    Mirrored(g) && ListsWf(g.forward) && ListsWf(g.reverse)
  }

  /** Appends `v` to the list under `k`, creating the list when absent
      (`entry(k).or_insert_with(Vec::new).push(v)`). */
  function Push(adj: AdjList, k: Name, v: Name): AdjList
  {
    adj[k := (if k in adj then adj[k] else []) + [v]]
  }

  lemma PushEdges(adj: AdjList, k: Name, v: Name)
    ensures forall a, b :: HasEdge(Push(adj, k, v), a, b) <==> HasEdge(adj, a, b) || (a == k && b == v)
  {
  }

  lemma PushListsWf(adj: AdjList, k: Name, v: Name)
    ensures ListsWf(adj) && !HasEdge(adj, k, v) ==> ListsWf(Push(adj, k, v))
  {
    var s := if k in adj then adj[k] else [];
    if ListsWf(adj) && !HasEdge(adj, k, v) {
      assert v !in s;
      assert NoDup(s + [v]) by {
        forall i, j | 0 <= i < j < |s + [v]| ensures (s + [v])[i] != (s + [v])[j] {
          if j == |s| {
            assert (s + [v])[i] == s[i];
          } else {
            assert (s + [v])[i] == s[i] && (s + [v])[j] == s[j];
          }
        }
      }
    }
  }

  /** `add_edge(from, to)`: a no-op when `to` is already listed under `from`,
      otherwise appends to both lists.  Keeps the maps mirrored and the lists
      duplicate-free, and adds exactly the edge (from, to). */
  function AddEdge(g: Adjacency, from: Name, to: Name): (r: Adjacency)
    ensures forall a, b :: HasEdge(r.forward, a, b) <==> HasEdge(g.forward, a, b) || (a == from && b == to)
    ensures HasEdge(g.forward, from, to) ==> r == g
    ensures Wf(g) ==> Wf(r)
    ensures Wf(g) ==> forall a, b :: HasEdge(r.reverse, b, a) <==> HasEdge(r.forward, a, b)
  {
    if HasEdge(g.forward, from, to) then g
    else
      var r := Adjacency(Push(g.forward, from, to), Push(g.reverse, to, from));
      PushEdges(g.forward, from, to);
      PushEdges(g.reverse, to, from);
      PushListsWf(g.forward, from, to);
      PushListsWf(g.reverse, to, from);
      r
  }

  /** Adding the same edge twice is the same as adding it once. */
  lemma AddEdgeIdempotent(g: Adjacency, from: Name, to: Name)
    ensures AddEdge(AddEdge(g, from, to), from, to) == AddEdge(g, from, to)
  {
  }

  /** `add_edges(from, to_list)`: `add_edge(from, to)` for each `to` in order. */
  function AddEdges(g: Adjacency, from: Name, tos: seq<Name>): (r: Adjacency)
    ensures forall a, b :: HasEdge(r.forward, a, b) <==> HasEdge(g.forward, a, b) || (a == from && b in tos)
    ensures Wf(g) ==> Wf(r)
    decreases |tos|
  {
    if tos == [] then g
    else
      var prefix := tos[..|tos| - 1];
      var r := AddEdge(AddEdges(g, from, prefix), from, tos[|tos| - 1]);
      assert forall b :: b in tos <==> b in prefix || b == tos[|tos| - 1] by {
        assert tos == prefix + [tos[|tos| - 1]];
      }
      r
  }

  /** `add_dep(name, dep)`: "name depends on dep", the edge dep -> name. */
  function AddDep(g: Adjacency, name: Name, dep: Name): (r: Adjacency)
    ensures r == AddEdge(g, dep, name)
    // `dep` joins the prerequisites of `name`, and nothing else changes
    ensures Wf(g) ==> forall a, b :: HasEdge(r.reverse, a, b) <==> HasEdge(g.reverse, a, b) || (a == name && b == dep)
  {
    AddEdge(g, dep, name)
  }

  /** `add_deps(name, deps)`: `add_dep(name, dep)` for each `dep` in order. */
  function AddDeps(g: Adjacency, name: Name, deps: seq<Name>): (r: Adjacency)
    ensures forall a, b :: HasEdge(r.forward, a, b) <==> HasEdge(g.forward, a, b) || (b == name && a in deps)
    ensures Wf(g) ==> Wf(r)
    decreases |deps|
  {
    if deps == [] then g
    else
      var prefix := deps[..|deps| - 1];
      var r := AddDep(AddDeps(g, name, prefix), name, deps[|deps| - 1]);
      assert forall a :: a in deps <==> a in prefix || a == deps[|deps| - 1] by {
        assert deps == prefix + [deps[|deps| - 1]];
      }
      r
  }

  /** The prerequisites of `n` (its reverse list, empty when it has none). */
  function Prereqs(g: Adjacency, n: Name): seq<Name>
  {
    if n in g.reverse then g.reverse[n] else []
  }

  /** The dependents of `n` (its forward list, empty when it has none). */
  function Dependents(g: Adjacency, n: Name): seq<Name>
  {
    if n in g.forward then g.forward[n] else []
  }
}
