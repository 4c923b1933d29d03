/** Molecule validation, and what it buys: a workflow that can always be run to its end.
    (internal/beads/molecule.go, ValidateMolecule; the execution loop of scripts/gen_hanoi.py) */
module Molecule {
  import opened Text
  import opened MoleculeSteps
  import opened StepGraph

  datatype Issue = Issue(id: string, title: string, kind: string, priority: int, description: string, dependsOn: seq<string>)

  datatype ValidationError =
    | NilMolecule
    | WrongType(kind: string)
    | NoSteps
    | EmptyRef
    | DuplicateRef(ref: string)
    | UnknownNeed(ref: string, need: string)
    | SelfDependency(ref: string)
    | CycleDetected(cycle: seq<string>)

  /** Every need names a step. */
  ghost predicate KnownNeeds(steps: seq<Step>) {
    forall s <- steps, n <- s.needs :: n in Refs(steps)
  }

  ghost predicate WellFormed(steps: seq<Step>) {
    steps != [] && DistinctRefs(steps) && KnownNeeds(steps) && Acyclic(DepsOf(steps))
  }

  /** What each reported problem says about the steps. */
  ghost predicate Explains(error: ValidationError, steps: seq<Step>) {
    match error
    case NilMolecule => false
    case WrongType(_) => false
    case NoSteps => steps == []
    case EmptyRef => false
    case DuplicateRef(ref) => exists i, j :: 0 <= i < j < |steps| && steps[i].ref == ref && steps[j].ref == ref
    case UnknownNeed(ref, need) => (exists s <- steps :: s.ref == ref && need in s.needs) && need !in Refs(steps)
    case SelfDependency(ref) => exists s <- steps :: s.ref == ref && ref in s.needs
    case CycleDetected(cycle) => Cycle(DepsOf(steps), cycle)
  }

  lemma SelfNeedIsCycle(steps: seq<Step>, ref: string)
    requires DistinctRefs(steps) && exists s <- steps :: s.ref == ref && ref in s.needs
    ensures Cycle(DepsOf(steps), [ref, ref])
  {
    DepsAreNeeds(steps);
  }

  /** ValidateMolecule accepts exactly the molecules whose steps are well-formed, and its error names a real
      problem.  It never reports an empty ref: the header expression does not match one. */
  method ValidateMolecule(mol: Option<Issue>) returns (error: Option<ValidationError>)
    ensures error.None? <==>
      mol.Some? && mol.value.kind == "molecule" && WellFormed(ParsedSteps(mol.value.description))
    ensures error == Some(NilMolecule) <==> mol.None?
    ensures error.Some? && error.value.WrongType? <==> mol.Some? && mol.value.kind != "molecule"
    ensures error.Some? && mol.Some? && mol.value.kind == "molecule" ==>
      Explains(error.value, ParsedSteps(mol.value.description))
  {
    if mol.None? {
      return Some(NilMolecule);
    }
    if mol.value.kind != "molecule" {
      return Some(WrongType(mol.value.kind));
    }
    var steps := ParseMoleculeSteps(mol.value.description);
    StepsAreHeaders(mol.value.description);
    error := ValidateSteps(steps);
  }

  method ValidateSteps(steps: seq<Step>) returns (error: Option<ValidationError>)
    requires forall s <- steps :: s.ref != ""
    ensures error.None? <==> WellFormed(steps)
    ensures error.Some? ==> Explains(error.value, steps)
  {
    if |steps| == 0 {
      return Some(NoSteps);
    }
    var stepMap: set<string> := {};
    for i := 0 to |steps|
      invariant stepMap == Refs(steps[..i]) && DistinctRefs(steps[..i])
    {
      if steps[i].ref == "" {
        return Some(EmptyRef);
      }
      if steps[i].ref in stepMap {
        var j :| 0 <= j < i && steps[j].ref == steps[i].ref;
        return Some(DuplicateRef(steps[i].ref));
      }
      stepMap := stepMap + {steps[i].ref};
      assert steps[..i + 1] == steps[..i] + [steps[i]];
    }
    assert steps[..|steps|] == steps;
    for i := 0 to |steps|
      invariant forall s <- steps[..i], n <- s.needs :: n in stepMap
    {
      var needs := steps[i].needs;
      for j := 0 to |needs|
        invariant forall n <- needs[..j] :: n in stepMap
      {
        if needs[j] !in stepMap {
          assert steps[i] in steps && needs[j] in steps[i].needs;
          return Some(UnknownNeed(steps[i].ref, needs[j]));
        }
        if needs[j] == steps[i].ref {
          assert steps[i] in steps && needs[j] in steps[i].needs;
          SelfNeedIsCycle(steps, steps[i].ref);
          return Some(SelfDependency(steps[i].ref));
        }
        assert needs[..j + 1] == needs[..j] + [needs[j]];
      }
      assert needs[..|needs|] == needs;
      assert steps[..i + 1] == steps[..i] + [steps[i]];
    }
    var cycle := DetectCycles(steps);
    error := if cycle.Some? then Some(CycleDetected(cycle.value)) else None;
  }

  // ---------- Running a molecule ----------

  /** An unblocked step: open, with all its needs closed. */
  predicate Ready(deps: map<string, seq<string>>, closed: set<string>, ref: string) {
    ref in deps && ref !in closed && forall n <- deps[ref] :: n in closed
  }

  /** A sequence of closes, each of a step that was ready when it was closed. */
  ghost predicate Run(deps: map<string, seq<string>>, closed: set<string>, order: seq<string>) {
    forall i {:trigger order[..i]} | 0 <= i < |order| :: Ready(deps, closed + Elements(order[..i]), order[i])
  }

  /** Needs stay inside the graph. */
  ghost predicate ClosedGraph(deps: map<string, seq<string>>) {
    forall a, b | Edge(deps, a, b) :: b in deps
  }

  lemma WellFormedGraph(steps: seq<Step>)
    requires WellFormed(steps)
    ensures ClosedGraph(DepsOf(steps)) && DepsOf(steps).Keys == Refs(steps) && |Refs(steps)| == |steps|
  {
    KnownNeedsClosed(steps);
    RefsCount(steps);
  }

  lemma KnownNeedsClosed(steps: seq<Step>)
    requires DistinctRefs(steps) && KnownNeeds(steps)
    ensures ClosedGraph(DepsOf(steps)) && DepsOf(steps).Keys == Refs(steps)
  {
    hide DepsOf;
    DepsKeys(steps);
    forall a, b | Edge(DepsOf(steps), a, b) ensures b in DepsOf(steps) {
      var i :| 0 <= i < |steps| && steps[i].ref == a;
      DepsAt(steps, i);
      assert steps[i] in steps && b in steps[i].needs;
    }
  }

  lemma RefsCount(steps: seq<Step>)
    requires DistinctRefs(steps)
    ensures |Refs(steps)| == |steps|
  {
    var refs := Mapped(steps, (s: Step) => s.ref);
    NoDupCount(refs);
    assert Elements(refs) == Refs(steps) by {
      forall r | r in Refs(steps) ensures r in refs { var i :| 0 <= i < |steps| && steps[i].ref == r; assert refs[i] == r; }
      forall r | r in refs ensures r in Refs(steps) { var i :| 0 <= i < |refs| && refs[i] == r; assert steps[i] in steps; }
    }
  }

  lemma {:induction false} NoDupCount<T>(s: seq<T>)
    requires NoDup(s)
    ensures |Elements(s)| == |s|
  {
    if s != [] {
      var k := |s| - 1;
      NoDupCount(s[..k]);
      assert s == s[..k] + [s[k]];
      assert Elements(s) == Elements(s[..k]) + {s[k]};
    }
  }

  ghost predicate HasSuccessor(deps: map<string, seq<string>>, s: set<string>, a: string) {
    exists b :: b in s && Edge(deps, a, b)
  }

  /** A walk that can never leave a finite set runs into itself. */
  lemma {:induction false} WalkFindsCycle(deps: map<string, seq<string>>, s: set<string>, walk: seq<string>)
    returns (c: seq<string>)
    requires walk != [] && Path(deps, walk) && NoDup(walk) && Elements(walk) <= s
    requires forall a {:trigger HasSuccessor(deps, s, a)} | a in s :: HasSuccessor(deps, s, a)
    ensures Cycle(deps, c)
    decreases s - Elements(walk)
  {
    var last := walk[|walk| - 1];
    assert last in Elements(walk) && HasSuccessor(deps, s, last);
    var b :| b in s && Edge(deps, last, b);
    if b in walk {
      var k :| 0 <= k < |walk| && walk[k] == b;
      BackEdgeClosesCycle(deps, walk, k, b);
      c := walk[k..] + [b];
    } else {
      var longer := walk + [b];
      assert Elements(longer) == Elements(walk) + {b} && b !in Elements(walk);
      assert Path(deps, longer) by {
        forall i | 0 <= i < |longer| - 1 ensures Edge(deps, longer[i], longer[i + 1]) {
          if i < |walk| - 1 { assert Edge(deps, walk[i], walk[i + 1]); }
        }
      }
      c := WalkFindsCycle(deps, s, longer);
    }
  }

  /** From any set of closed steps that is not all of them, some step is ready. */
  lemma Progress(deps: map<string, seq<string>>, closed: set<string>)
    requires ClosedGraph(deps) && Acyclic(deps)
    requires !(deps.Keys <= closed)
    ensures exists ref :: Ready(deps, closed, ref)
  {
    var open := deps.Keys - closed;
    if forall ref :: !Ready(deps, closed, ref) {
      forall a | a in open ensures HasSuccessor(deps, open, a) {
        assert !Ready(deps, closed, a);
        var b :| b in deps[a] && b !in closed;
        assert Edge(deps, a, b);
      }
      var a :| a in deps.Keys && a !in closed;
      var c := WalkFindsCycle(deps, open, [a]);
    }
  }

  /** However the ready steps are picked, a run that can go no further has closed every open step exactly once. */
  lemma StuckRunIsComplete(deps: map<string, seq<string>>, closed: set<string>, order: seq<string>)
    requires ClosedGraph(deps) && Acyclic(deps)
    requires Run(deps, closed, order)
    requires forall ref :: !Ready(deps, closed + Elements(order), ref)
    ensures Elements(order) == deps.Keys - closed && |order| == |deps.Keys - closed|
  {
    if !(deps.Keys <= closed + Elements(order)) {
      Progress(deps, closed + Elements(order));
    }
    RunClosesOnce(deps, closed, order);
    NoDupCount(order);
  }

  lemma RunClosesOnce(deps: map<string, seq<string>>, closed: set<string>, order: seq<string>)
    requires Run(deps, closed, order)
    ensures NoDup(order) && Elements(order) <= deps.Keys - closed
  {
    forall i, j | 0 <= i < j < |order| ensures order[i] != order[j] {
      assert order[i] == order[..j][i] && Ready(deps, closed + Elements(order[..j]), order[j]);
    }
    forall r | r in order ensures r in deps && r !in closed {
      var i :| 0 <= i < |order| && order[i] == r;
      assert Ready(deps, closed + Elements(order[..i]), order[i]);
    }
  }

  /** A run from the start closes a step only after everything it needs. */
  lemma RunIsTopological(deps: map<string, seq<string>>, order: seq<string>)
    requires Run(deps, {}, order)
    ensures Topological(deps, order)
  {
    forall i, b | 0 <= i < |order| && Edge(deps, order[i], b) ensures b in order[..i] {
      assert Ready(deps, {} + Elements(order[..i]), order[i]);
    }
  }

  /** Acyclicity is exactly what it takes: some run closes every step if and only if there is no cycle. */
  lemma CompletableIffAcyclic(deps: map<string, seq<string>>)
    requires ClosedGraph(deps)
    ensures Acyclic(deps) <==> exists order :: Run(deps, {}, order) && Elements(order) == deps.Keys
  {
    if Acyclic(deps) {
      var order := ExtendRun(deps, []);
    }
    if order :| Run(deps, {}, order) && Elements(order) == deps.Keys {
      RunIsTopological(deps, order);
      forall c ensures !Cycle(deps, c) {
        if Cycle(deps, c) {
          assert Edge(deps, c[0], c[1]);
          assert c[0] in Elements(order);
          var i :| 0 <= i < |order| && order[i] == c[0];
          TopologicalBlocksCycle(deps, order, c, i);
        }
      }
    }
  }

  /** Validation in terms of running: the steps are well-formed exactly when there are some, their refs are distinct,
      their needs are known, and they can be closed to the end, each ready when it is closed. */
  lemma WellFormedIffCompletable(steps: seq<Step>)
    ensures WellFormed(steps) <==>
      steps != [] && DistinctRefs(steps) && KnownNeeds(steps)
      && exists order :: Run(DepsOf(steps), {}, order) && Elements(order) == Refs(steps)
  {
    if DistinctRefs(steps) && KnownNeeds(steps) {
      KnownNeedsClosed(steps);
      CompletableIffAcyclic(DepsOf(steps));
    }
  }

  lemma {:induction false} ExtendRun(deps: map<string, seq<string>>, prefix: seq<string>) returns (order: seq<string>)
    requires ClosedGraph(deps) && Acyclic(deps) && Run(deps, {}, prefix)
    ensures Run(deps, {}, order) && Elements(order) == deps.Keys
    decreases deps.Keys - Elements(prefix)
  {
    RunClosesOnce(deps, {}, prefix);
    if deps.Keys <= Elements(prefix) {
      return prefix;
    }
    Progress(deps, {} + Elements(prefix));
    var ref :| Ready(deps, {} + Elements(prefix), ref);
    RunSnoc(deps, {}, prefix, ref);
    assert ref in Elements(prefix + [ref]);
    order := ExtendRun(deps, prefix + [ref]);
  }

  lemma RunSnoc(deps: map<string, seq<string>>, closed: set<string>, prefix: seq<string>, ref: string)
    requires Run(deps, closed, prefix) && Ready(deps, closed + Elements(prefix), ref)
    ensures Run(deps, closed, prefix + [ref])
    ensures Elements(prefix + [ref]) == Elements(prefix) + {ref}
  {
    var order := prefix + [ref];
    forall i | 0 <= i < |order| ensures Ready(deps, closed + Elements(order[..i]), order[i]) {
      assert order[..i] == prefix[..i];
      assert prefix[..|prefix|] == prefix;
    }
  }

  /** The execution loop, fresh or resumed with some steps already closed: close any ready step until none is
      left.  Whatever is picked, it ends after exactly as many closes as there were open steps. */
  method CloseReadySteps(steps: seq<Step>, closed: set<string>) returns (order: seq<string>)
    requires WellFormed(steps) && closed <= Refs(steps)
    ensures Run(DepsOf(steps), closed, order)
    ensures Elements(order) == Refs(steps) - closed && |order| == |steps| - |closed|
  {
    WellFormedGraph(steps);
    order := CloseAll(DepsOf(steps), closed);
  }

  method CloseAll(deps: map<string, seq<string>>, closed: set<string>) returns (order: seq<string>)
    requires ClosedGraph(deps) && Acyclic(deps)
    ensures Run(deps, closed, order)
    ensures Elements(order) == deps.Keys - closed && |order| == |deps.Keys - closed|
  {
    order := [];
    var done := closed;
    while exists ref <- deps :: Ready(deps, done, ref)
      invariant Run(deps, closed, order) && done == closed + Elements(order)
      decreases deps.Keys - done
    {
      var ref :| ref in deps && Ready(deps, done, ref);
      RunSnoc(deps, closed, order, ref);
      done := done + {ref};
      order := order + [ref];
    }
    StuckRunIsComplete(deps, closed, order);
  }
}
