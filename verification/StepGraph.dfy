/** The Needs graph of a molecule and the depth-first search that looks for cycles in it.
    (internal/beads/molecule.go, detectCycles) */
module StepGraph {
  import opened Text
  import opened MoleculeSteps

  // ---------- The Needs graph ----------

  /** The adjacency list detectCycles builds: a later step with the same ref replaces an earlier one. */
  function DepsOf(steps: seq<Step>): map<string, seq<string>> {
    if steps == [] then map[]
    else DepsOf(steps[..|steps| - 1])[steps[|steps| - 1].ref := steps[|steps| - 1].needs]
  }

  predicate Edge(deps: map<string, seq<string>>, a: string, b: string) {
    a in deps && b in deps[a]
  }

  /** Each node of the path needs the next one. */
  ghost predicate Path(deps: map<string, seq<string>>, p: seq<string>) {
    forall i | 0 <= i < |p| - 1 :: Edge(deps, p[i], p[i + 1])
  }

  ghost predicate Cycle(deps: map<string, seq<string>>, c: seq<string>) {
    |c| >= 2 && c[0] == c[|c| - 1] && Path(deps, c)
  }

  ghost predicate Acyclic(deps: map<string, seq<string>>) {
    forall c :: !Cycle(deps, c)
  }

  ghost predicate NoDup<T>(s: seq<T>) {
    forall i, j | 0 <= i < j < |s| :: s[i] != s[j]
  }

  function Refs(steps: seq<Step>): set<string> {
    set s <- steps :: s.ref
  }

  ghost predicate DistinctRefs(steps: seq<Step>) {
    forall i, j | 0 <= i < j < |steps| :: steps[i].ref != steps[j].ref
  }

  lemma {:induction false} DepsKeys(steps: seq<Step>)
    ensures DepsOf(steps).Keys == Refs(steps)
  {
    if steps != [] {
      var k := |steps| - 1;
      DepsKeys(steps[..k]);
      assert steps == steps[..k] + [steps[k]];
    }
  }

  /** With distinct refs the graph holds exactly the Needs lists of the steps. */
  lemma {:induction false} DepsAreNeeds(steps: seq<Step>)
    requires DistinctRefs(steps)
    ensures forall s <- steps :: s.ref in DepsOf(steps) && DepsOf(steps)[s.ref] == s.needs
  {
    if steps != [] {
      var k := |steps| - 1;
      DepsAreNeeds(steps[..k]);
      assert steps == steps[..k] + [steps[k]];
    }
  }

  lemma DepsAt(steps: seq<Step>, i: nat)
    requires DistinctRefs(steps) && i < |steps|
    ensures steps[i].ref in DepsOf(steps) && DepsOf(steps)[steps[i].ref] == steps[i].needs
  {
    DepsAreNeeds(steps);
    assert steps[i] in steps;
  }

  // ---------- detectCycles ----------

  ghost function Elements<T>(s: seq<T>): set<T> {
    set x <- s
  }

  /** Every finished node's needs were finished before it. */
  ghost predicate Topological(deps: map<string, seq<string>>, order: seq<string>) {
    forall i, b | 0 <= i < |order| && Edge(deps, order[i], b) :: b in order[..i]
  }

  /** No cycle passes through a closed, topologically ordered set of nodes. */
  lemma {:induction false} TopologicalBlocksCycle(
    deps: map<string, seq<string>>, order: seq<string>, c: seq<string>, i: nat)
    requires Topological(deps, order)
    requires Cycle(deps, c)
    requires i < |order| && c[0] == order[i]
    ensures false
    decreases i
  {
    assert Edge(deps, c[0], c[1]);
    var j :| 0 <= j < i && order[j] == c[1];
    var rotated := c[1..] + [c[1]];
    forall k | 0 <= k < |rotated| - 1 ensures Edge(deps, rotated[k], rotated[k + 1]) {
      if k < |c| - 2 { assert Edge(deps, c[k + 1], c[k + 2]); } else { assert Edge(deps, c[0], c[1]); }
    }
    TopologicalBlocksCycle(deps, order, rotated, j);
  }

  const VISITING := 1
  const VISITED := 2

  /** What the DFS keeps true: state 1 means "on the path", state 2 means "finished after all its needs". */
  ghost predicate SearchInvariant(
    deps: map<string, seq<string>>, nodes: set<string>, state: map<string, int>, path: seq<string>,
    finished: seq<string>)
  {
    && deps.Keys <= nodes && (forall a, b | Edge(deps, a, b) :: b in nodes)
    && state.Keys <= nodes
    && (forall n <- state :: state[n] == VISITING || state[n] == VISITED)
    && NoDup(path) && Path(deps, path)
    && (forall n :: n in path <==> n in state && state[n] == VISITING)
    && (forall n :: n in finished <==> n in state && state[n] == VISITED)
    && Topological(deps, finished)
  }

  lemma EnterNode(
    deps: map<string, seq<string>>, nodes: set<string>, state: map<string, int>, path: seq<string>,
    finished: seq<string>, node: string)
    requires SearchInvariant(deps, nodes, state, path, finished)
    requires node in nodes && (node in state ==> state[node] != VISITING && state[node] != VISITED)
    requires path != [] ==> Edge(deps, path[|path| - 1], node)
    ensures SearchInvariant(deps, nodes, state[node := VISITING], path + [node], finished)
    ensures node !in state && forall b | Edge(deps, node, b) :: b in nodes
  {
    assert node !in path;
  }

  lemma VisitingOnPath(
    deps: map<string, seq<string>>, nodes: set<string>, state: map<string, int>, path: seq<string>,
    finished: seq<string>, node: string)
    requires SearchInvariant(deps, nodes, state, path, finished) && node in state && state[node] != VISITED
    ensures node in path && Path(deps, path)
  {
  }

  lemma LeaveNode(
    deps: map<string, seq<string>>, nodes: set<string>, state: map<string, int>, path: seq<string>,
    finished: seq<string>, node: string)
    requires SearchInvariant(deps, nodes, state, path + [node], finished)
    requires node in deps ==> forall b <- deps[node] :: b in state && state[b] == VISITED
    ensures SearchInvariant(deps, nodes, state[node := VISITED], path, finished + [node])
  {
    assert node in path + [node];
    var order := finished + [node];
    forall i, b | 0 <= i < |order| && Edge(deps, order[i], b) ensures b in order[..i] {
      assert order[..i] == finished[..i];
      assert i == |finished| ==> finished[..i] == finished;
    }
    assert forall k | 0 <= k < |path| :: path[k] == (path + [node])[k] != (path + [node])[|path|] == node;
    forall n ensures n in path <==> n in state[node := VISITED] && state[node := VISITED][n] == VISITING {
      assert n in path + [node] <==> n in path || n == node;
    }
    forall i | 0 <= i < |path| - 1 ensures Edge(deps, path[i], path[i + 1]) {
      assert Edge(deps, (path + [node])[i], (path + [node])[i + 1]);
    }
    forall i, j | 0 <= i < j < |path| ensures path[i] != path[j] {
      assert (path + [node])[i] != (path + [node])[j];
    }
  }

  lemma BackEdgeClosesCycle(deps: map<string, seq<string>>, path: seq<string>, start: nat, node: string)
    requires Path(deps, path) && start < |path| && path[start] == node
    requires Edge(deps, path[|path| - 1], node)
    ensures Cycle(deps, path[start..] + [node])
  {
  }

  /** Nodes that were visited keep their state. */
  ghost predicate Keeps(before: map<string, int>, after: map<string, int>) {
    forall n <- before :: n in after && after[n] == before[n]
  }

  /** The closure state of detectCycles: the visit state of each node and the current DFS path. */
  class CycleSearch {
    const deps: map<string, seq<string>>
    var state: map<string, int>
    var path: seq<string>
    ghost const nodes: set<string>
    ghost var finished: seq<string>

    ghost predicate Valid()
      reads this
    {
      SearchInvariant(deps, nodes, state, path, finished)
    }

    constructor (steps: seq<Step>)
      ensures Valid() && deps == DepsOf(steps) && state == map[] && path == [] && finished == []
    {
      var d: map<string, seq<string>> := map[];
      for i := 0 to |steps|
        invariant d == DepsOf(steps[..i])
      {
        assert steps[..i + 1][..i] == steps[..i];
        d := d[steps[i].ref := steps[i].needs];
      }
      assert steps[..|steps|] == steps;
      deps, state, path := d, map[], [];
      nodes := d.Keys + set a, b | a in d && b in d[a] :: b;
      finished := [];
    }

    /** The part of the path from a node on it to the top, closed by the edge back to the node. */
    method PathFrom(node: string) returns (cycle: seq<string>)
      requires Path(deps, path) && node in path && Edge(deps, path[|path| - 1], node)
      ensures Cycle(deps, cycle)
    {
      var cycleStart := -1;
      for i := 0 to |path|
        invariant cycleStart == -1 && node !in path[..i]
      {
        if path[i] == node {
          cycleStart := i;
          break;
        }
      }
      assert cycleStart >= 0 by { assert path[..|path|] == path; }
      BackEdgeClosesCycle(deps, path, cycleStart, node);
      cycle := path[cycleStart..] + [node];
    }

    /** The recursive closure: returns the offending cycle, or none after finishing the node. */
    method Dfs(node: string) returns (cycle: Option<seq<string>>)
      requires Valid() && node in nodes
      requires path != [] ==> Edge(deps, path[|path| - 1], node)
      modifies this
      ensures cycle.Some? ==> Cycle(deps, cycle.value)
      ensures cycle.None? ==> Valid() && path == old(path) && node in state && state[node] == VISITED
      ensures cycle.None? ==> Keeps(old(state), state)
      decreases nodes - state.Keys
    {
      hide SearchInvariant;
      if node in state && state[node] == VISITED {
        return None;
      }
      if node in state && state[node] == VISITING {
        VisitingOnPath(deps, nodes, state, path, finished, node);
        var found := PathFrom(node);
        return Some(found);
      }

      ghost var before, known := path, state;
      EnterNode(deps, nodes, state, path, finished, node);
      state := state[node := VISITING];
      path := path + [node];

      var needs := if node in deps then deps[node] else [];
      for i := 0 to |needs|
        invariant Valid() && path == before + [node]
        invariant node in state && Keeps(known, state)
        invariant forall j | 0 <= j < i :: needs[j] in state && state[needs[j]] == VISITED
      {
        assert Edge(deps, node, needs[i]);
        cycle := Dfs(needs[i]);
        if cycle.Some? {
          return;
        }
      }
      LeaveNode(deps, nodes, state, before, finished, node);
      path := path[..|path| - 1];
      state := state[node := VISITED];
      finished := finished + [node];
      cycle := None;
    }
  }

  /** detectCycles reports no cycle exactly when the Needs graph has none, and what it reports is one. */
  method DetectCycles(steps: seq<Step>) returns (cycle: Option<seq<string>>)
    ensures cycle.None? <==> Acyclic(DepsOf(steps))
    ensures cycle.Some? ==> Cycle(DepsOf(steps), cycle.value)
  {
    var search := new CycleSearch(steps);
    DepsKeys(steps);
    for i := 0 to |steps|
      invariant search.Valid() && search.path == [] && search.deps == DepsOf(steps)
      invariant forall j | 0 <= j < i :: steps[j].ref in search.finished
    {
      if steps[i].ref !in search.state {
        ghost var before := search.state;
        cycle := search.Dfs(steps[i].ref);
        if cycle.Some? {
          return;
        }
        forall j | 0 <= j < i ensures steps[j].ref in search.finished { assert steps[j].ref in before; }
      } else {
        assert steps[i].ref !in search.path;
      }
    }
    cycle := None;
    var deps := DepsOf(steps);
    forall c ensures !Cycle(deps, c) {
      if Cycle(deps, c) {
        assert Edge(deps, c[0], c[1]);
        var i :| 0 <= i < |search.finished| && search.finished[i] == c[0];
        TopologicalBlocksCycle(deps, search.finished, c, i);
      }
    }
  }
}
