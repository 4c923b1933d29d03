/** Copying a molecule's graph onto freshly created issues, in two passes over a backend that may refuse any
    call.  (internal/beads/molecule.go, InstantiateMolecule and the two formats behind it) */
module Instantiate {
  import opened Text
  import opened MoleculeSteps
  import opened StepGraph
  import opened Molecule

  /** What is created for one step. */
  datatype Child = Child(title: string, kind: string, priority: int, description: string, parent: string)

  /** One step to create, under the name its dependencies use. */
  datatype Node = Node(key: string, needs: seq<string>, child: Child)

  /** The contents of the database at one moment. */
  datatype Contents = Contents(issues: map<string, Child>, dependencies: seq<(string, string)>, closeCalls: seq<string>)

  /** The bd database as far as instantiation sees it.  Every operation may fail at any time. */
  class Backend {
    var issues: map<string, Child>
    var dependencies: seq<(string, string)>
    var closeCalls: seq<string>

    ghost function Now(): Contents
      reads this
    {
      Contents(issues, dependencies, closeCalls)
    }

    constructor ()
      ensures issues == map[] && dependencies == [] && closeCalls == []
    {
      issues, dependencies, closeCalls := map[], [], [];
    }

    /** Creates an issue under a fresh id. */
    method Create(child: Child) returns (id: Option<string>)
      modifies this`issues
      ensures id.None? ==> issues == old(issues)
      ensures id.Some? ==> id.value !in old(issues) && issues == old(issues)[id.value := child]
    {
      var reply: string := *;
      var ok: bool := *;
      if !ok || reply in issues {
        return None;
      }
      issues := issues[reply := child];
      id := Some(reply);
    }

    method AddDependency(issue: string, dependsOn: string) returns (ok: bool)
      modifies this`dependencies
      ensures dependencies == if ok then old(dependencies) + [(issue, dependsOn)] else old(dependencies)
    {
      ok := *;
      if ok {
        dependencies := dependencies + [(issue, dependsOn)];
      }
    }

    /** Best-effort close; only the call is recorded. */
    method Close(id: string)
      modifies this`closeCalls
      ensures closeCalls == old(closeCalls) + [id]
    {
      closeCalls := closeCalls + [id];
    }
  }

  datatype Outcome =
    | Instantiated(ids: seq<string>)
    | MissingIssue
    | NoStepsDefined
    | UnknownStep(ref: string, need: string)
    | CreateFailed(key: string)
    | DependencyFailed(ids: seq<string>, issue: string, dependsOn: string)

  // ---------- Specification ----------

  /** ids name fresh, distinct issues holding the nodes' children; nothing else changed. */
  ghost predicate CreatedAs(before: map<string, Child>, after: map<string, Child>, nodes: seq<Node>, ids: seq<string>) {
    && |ids| == |nodes| && NoDup(ids)
    && after.Keys == before.Keys + Elements(ids)
    && (forall id <- before :: after[id] == before[id])
    && (forall i | 0 <= i < |ids| :: ids[i] !in before && ids[i] in after && after[ids[i]] == nodes[i].child)
  }

  /** stepIssueIDs / templateToNew: a later node with the same key wins. */
  function IdMap(nodes: seq<Node>, ids: seq<string>): map<string, string>
    requires |nodes| == |ids|
  {
    if nodes == [] then map[]
    else IdMap(nodes[..|nodes| - 1], ids[..|ids| - 1])[nodes[|nodes| - 1].key := ids[|ids| - 1]]
  }

  function NeedEdges(from: string, needs: seq<string>, idOf: map<string, string>): seq<(string, string)> {
    if needs == [] then []
    else
      var need := needs[|needs| - 1];
      NeedEdges(from, needs[..|needs| - 1], idOf) + if need in idOf then [(from, idOf[need])] else []
  }

  /** The dependencies the second pass adds, in order. */
  function WiredEdges(nodes: seq<Node>, idOf: map<string, string>): seq<(string, string)>
    requires forall n <- nodes :: n.key in idOf
  {
    if nodes == [] then []
    else
      var node := nodes[|nodes| - 1];
      WiredEdges(nodes[..|nodes| - 1], idOf) + NeedEdges(idOf[node.key], node.needs, idOf)
  }

  lemma {:induction false} IdMapKeys(nodes: seq<Node>, ids: seq<string>)
    requires |nodes| == |ids|
    ensures forall k :: k in IdMap(nodes, ids) <==> exists i :: 0 <= i < |nodes| && nodes[i].key == k
  {
    if nodes != [] {
      var n := |nodes| - 1;
      IdMapKeys(nodes[..n], ids[..n]);
      var m := IdMap(nodes[..n], ids[..n]);
      forall k ensures k in IdMap(nodes, ids) <==> exists i :: 0 <= i < |nodes| && nodes[i].key == k {
        if k in m { var i :| 0 <= i < n && nodes[..n][i].key == k; assert nodes[i].key == k; }
        if i :| 0 <= i < |nodes| && nodes[i].key == k {
          if i < n { assert nodes[..n][i].key == k; }
        }
      }
    }
  }

  lemma {:induction false} IdMapOfDistinct(nodes: seq<Node>, ids: seq<string>)
    requires |nodes| == |ids| && forall i, j | 0 <= i < j < |nodes| :: nodes[i].key != nodes[j].key
    ensures forall i | 0 <= i < |nodes| :: nodes[i].key in IdMap(nodes, ids) && IdMap(nodes, ids)[nodes[i].key] == ids[i]
  {
    if nodes != [] {
      var n := |nodes| - 1;
      IdMapOfDistinct(nodes[..n], ids[..n]);
      forall i | 0 <= i < n ensures nodes[i].key in IdMap(nodes, ids) && IdMap(nodes, ids)[nodes[i].key] == ids[i] {
        assert nodes[..n][i].key in IdMap(nodes[..n], ids[..n]) && ids[..n][i] == ids[i];
      }
    }
  }

  lemma {:induction false} NeedEdgesMembers(from: string, needs: seq<string>, idOf: map<string, string>)
    ensures forall e :: e in NeedEdges(from, needs, idOf) <==>
      exists n :: n in needs && n in idOf && e == (from, idOf[n])
  {
    if needs != [] {
      var k := |needs| - 1;
      NeedEdgesMembers(from, needs[..k], idOf);
      assert needs == needs[..k] + [needs[k]];
    }
  }

  lemma {:induction false} WiredEdgesMembers(nodes: seq<Node>, idOf: map<string, string>)
    requires forall n <- nodes :: n.key in idOf
    ensures forall e :: e in WiredEdges(nodes, idOf) <==>
      exists n, d :: n in nodes && d in n.needs && d in idOf && e == (idOf[n.key], idOf[d])
  {
    if nodes != [] {
      var k := |nodes| - 1;
      WiredEdgesMembers(nodes[..k], idOf);
      NeedEdgesMembers(idOf[nodes[k].key], nodes[k].needs, idOf);
      assert nodes == nodes[..k] + [nodes[k]];
    }
  }

  lemma {:induction false} WiredPrefix(nodes: seq<Node>, idOf: map<string, string>, k: nat)
    requires k <= |nodes| && forall n <- nodes :: n.key in idOf
    ensures WiredEdges(nodes[..k], idOf) <= WiredEdges(nodes, idOf)
  {
    if k == |nodes| {
      assert nodes[..k] == nodes;
    } else {
      WiredPrefix(nodes[..|nodes| - 1], idOf, k);
      assert nodes[..|nodes| - 1][..k] == nodes[..k];
    }
  }

  lemma {:induction false} NeedPrefix(from: string, needs: seq<string>, idOf: map<string, string>, k: nat)
    requires k <= |needs|
    ensures NeedEdges(from, needs[..k], idOf) <= NeedEdges(from, needs, idOf)
  {
    if k == |needs| {
      assert needs[..k] == needs;
    } else {
      NeedPrefix(from, needs[..|needs| - 1], idOf, k);
      assert needs[..|needs| - 1][..k] == needs[..k];
    }
  }

  // ---------- The two passes ----------

  lemma OneMoreCreated(
    before: map<string, Child>, created: map<string, Child>, nodes: seq<Node>, ids: seq<string>, id: string)
    requires |ids| < |nodes| && id in created
    requires CreatedAs(before, created - {id}, nodes[..|ids|], ids) && created[id] == nodes[|ids|].child
    ensures CreatedAs(before, created, nodes[..|ids| + 1], ids + [id])
  {
    assert Elements(ids + [id]) == Elements(ids) + {id};
    assert id !in (created - {id}).Keys;
  }

  /** First pass.  On a refusal every issue created so far is closed again, in order. */
  method CreateAll(db: Backend, nodes: seq<Node>) returns (ids: seq<string>, failed: Option<string>)
    modifies db`issues, db`closeCalls
    ensures |ids| <= |nodes| && CreatedAs(old(db.issues), db.issues, nodes[..|ids|], ids)
    ensures failed.None? ==> |ids| == |nodes| && db.closeCalls == old(db.closeCalls)
    ensures failed.Some? ==> |ids| < |nodes| && failed.value == nodes[|ids|].key && db.closeCalls == old(db.closeCalls) + ids
  {
    ids := [];
    for i := 0 to |nodes|
      invariant |ids| == i && CreatedAs(old(db.issues), db.issues, nodes[..i], ids)
      invariant db.closeCalls == old(db.closeCalls)
    {
      ghost var sofar := db.issues;
      var id := db.Create(nodes[i].child);
      if id.None? {
        for j := 0 to |ids|
          invariant CreatedAs(old(db.issues), db.issues, nodes[..i], ids)
          invariant db.closeCalls == old(db.closeCalls) + ids[..j]
        {
          db.Close(ids[j]);
          assert ids[..j + 1] == ids[..j] + [ids[j]];
        }
        assert ids[..|ids|] == ids;
        return ids, Some(nodes[i].key);
      }
      assert db.issues - {id.value} == sofar;
      OneMoreCreated(old(db.issues), db.issues, nodes, ids, id.value);
      ids := ids + [id.value];
    }
    assert nodes[..|nodes|] == nodes;
    failed := None;
  }

  /** What was added: all of the edges, or those before the one that was refused. */
  ghost predicate AddedUpTo(
    before: seq<(string, string)>, after: seq<(string, string)>, edges: seq<(string, string)>,
    refused: Option<(string, string)>)
  {
    if refused.None? then after == before + edges
    else exists k :: 0 <= k < |edges| && edges[k] == refused.value && after == before + edges[..k]
  }

  method WireNeeds(db: Backend, issue: string, needs: seq<string>, idOf: map<string, string>)
    returns (refused: Option<(string, string)>)
    modifies db`dependencies
    ensures AddedUpTo(old(db.dependencies), db.dependencies, NeedEdges(issue, needs, idOf), refused)
  {
    hide NeedEdges;
    NeedNext(issue, needs, idOf, 0);
    for j := 0 to |needs|
      invariant db.dependencies == old(db.dependencies) + NeedEdges(issue, needs[..j], idOf)
    {
      NeedNext(issue, needs, idOf, j);
      if needs[j] in idOf {
        var ok := db.AddDependency(issue, idOf[needs[j]]);
        if !ok {
          RefusedAt(issue, needs, idOf, j);
          return Some((issue, idOf[needs[j]]));
        }
      }
    }
    assert needs[..|needs|] == needs;
    refused := None;
  }

  /** The edges of one need more. */
  lemma NeedNext(from: string, needs: seq<string>, idOf: map<string, string>, j: nat)
    requires j <= |needs|
    ensures NeedEdges(from, needs[..0], idOf) == []
    ensures j < |needs| ==>
      NeedEdges(from, needs[..j + 1], idOf) == NeedEdges(from, needs[..j], idOf) + if needs[j] in idOf then [(from, idOf[needs[j]])] else []
  {
    if j < |needs| { assert needs[..j + 1][..j] == needs[..j]; }
  }

  lemma RefusedAt(from: string, needs: seq<string>, idOf: map<string, string>, j: nat)
    requires j < |needs| && needs[j] in idOf
    ensures var k := |NeedEdges(from, needs[..j], idOf)|;
      var edges := NeedEdges(from, needs, idOf);
      k < |edges| && edges[k] == (from, idOf[needs[j]]) && edges[..k] == NeedEdges(from, needs[..j], idOf)
  {
    hide NeedEdges;
    NeedNext(from, needs, idOf, j);
    NeedPrefix(from, needs, idOf, j + 1);
  }

  lemma RefusedLater(
    before: seq<(string, string)>, mid: seq<(string, string)>, after: seq<(string, string)>, done: seq<(string, string)>,
    edges: seq<(string, string)>, all: seq<(string, string)>, refused: Option<(string, string)>)
    requires mid == before + done && AddedUpTo(mid, after, edges, refused)
    requires refused.Some? && done + edges <= all
    ensures AddedUpTo(before, after, all, refused)
  {
    var k :| 0 <= k < |edges| && edges[k] == refused.value && after == mid + edges[..k];
    var n := |done| + k;
    assert all[n] == (done + edges)[n] == edges[k];
    assert all[..n] == (done + edges)[..n] == done + edges[..k];
    assert after == before + all[..n];
  }

  /** Second pass: one dependency per need inside the molecule, stopping at the first refusal. */
  method WireAll(db: Backend, nodes: seq<Node>, idOf: map<string, string>) returns (refused: Option<(string, string)>)
    requires forall n <- nodes :: n.key in idOf
    modifies db`dependencies
    ensures AddedUpTo(old(db.dependencies), db.dependencies, WiredEdges(nodes, idOf), refused)
  {
    for i := 0 to |nodes|
      invariant db.dependencies == old(db.dependencies) + WiredEdges(nodes[..i], idOf)
    {
      ghost var mid, done := db.dependencies, WiredEdges(nodes[..i], idOf);
      var issue, needs := idOf[nodes[i].key], nodes[i].needs;
      assert WiredEdges(nodes[..i + 1], idOf) == done + NeedEdges(issue, needs, idOf) by {
        assert nodes[..i + 1][..i] == nodes[..i];
      }
      refused := WireNeeds(db, issue, needs, idOf);
      if refused.Some? {
        WiredPrefix(nodes, idOf, i + 1);
        RefusedLater(old(db.dependencies), mid, db.dependencies, done, NeedEdges(issue, needs, idOf),
                     WiredEdges(nodes, idOf), refused);
        return;
      }
    }
    assert nodes[..|nodes|] == nodes;
    refused := None;
  }

  /** What both formats promise once the steps are known. */
  ghost predicate Copied(before: Contents, after: Contents, nodes: seq<Node>, r: Outcome) {
    match r
    case Instantiated(ids) =>
      && CreatedAs(before.issues, after.issues, nodes, ids)
      && (forall n <- nodes :: n.key in IdMap(nodes, ids))
      && AddedUpTo(before.dependencies, after.dependencies, WiredEdges(nodes, IdMap(nodes, ids)), None)
      && after.closeCalls == before.closeCalls
    case CreateFailed(key) =>
      && after.dependencies == before.dependencies
      && before.closeCalls <= after.closeCalls
      && var ids := after.closeCalls[|before.closeCalls|..];
         && |ids| < |nodes| && nodes[|ids|].key == key
         && CreatedAs(before.issues, after.issues, nodes[..|ids|], ids)
    case DependencyFailed(ids, issue, dependsOn) =>
      && CreatedAs(before.issues, after.issues, nodes, ids)
      && (forall n <- nodes :: n.key in IdMap(nodes, ids))
      && after.closeCalls == before.closeCalls
      && AddedUpTo(before.dependencies, after.dependencies, WiredEdges(nodes, IdMap(nodes, ids)), Some((issue, dependsOn)))
    case _ => false
  }

  /** Created issues stay: those that are new are exactly the created ones, and only none leaves all as it was. */
  lemma CreatedStay(before: map<string, Child>, after: map<string, Child>, nodes: seq<Node>, ids: seq<string>)
    requires CreatedAs(before, after, nodes, ids)
    ensures after.Keys - before.Keys == Elements(ids)
    ensures after == before <==> ids == []
  {
    if ids != [] { assert ids[0] in after && ids[0] !in before; }
  }

  /** Copying is not all or nothing.  A failed copy leaves no issue behind exactly when the very first one was refused:
      otherwise a refused issue leaves those before it, closed but not deleted, and a refused dependency leaves all
      issues, none of them closed. */
  lemma NotAtomic(before: Contents, after: Contents, nodes: seq<Node>, r: Outcome)
    requires Copied(before, after, nodes, r) && !r.Instantiated?
    ensures after.issues == before.issues <==> r.CreateFailed? && after.closeCalls == before.closeCalls
    ensures r.CreateFailed? ==>
      before.closeCalls <= after.closeCalls
      && after.issues.Keys - before.issues.Keys == Elements(after.closeCalls[|before.closeCalls|..])
    ensures r.DependencyFailed? ==>
      after.closeCalls == before.closeCalls
      && after.issues.Keys - before.issues.Keys == Elements(r.ids) && |r.ids| == |nodes| > 0
  {
    if r.CreateFailed? {
      var ids := after.closeCalls[|before.closeCalls|..];
      CreatedStay(before.issues, after.issues, nodes[..|ids|], ids);
      assert ids == [] <==> after.closeCalls == before.closeCalls;
    } else {
      CreatedStay(before.issues, after.issues, nodes, r.ids);
      assert nodes != [];
    }
  }

  /** Such an outcome: the second of two issues is refused, and the first one stays. */
  lemma SecondRefused(before: Contents, first: Node, second: Node, id: string)
    requires id !in before.issues
    ensures var after := Contents(before.issues[id := first.child], before.dependencies, before.closeCalls + [id]);
      Copied(before, after, [first, second], CreateFailed(second.key)) && after.issues != before.issues
  {
    assert (before.closeCalls + [id])[|before.closeCalls|..] == [id] && [first, second][..1] == [first];
    assert Elements([id]) == {id};
  }

  method CopyGraph(db: Backend, nodes: seq<Node>) returns (r: Outcome)
    modifies db
    ensures Copied(old(db.Now()), db.Now(), nodes, r)
  {
    var ids, failedKey := CreateAll(db, nodes);
    if failedKey.Some? {
      assert db.closeCalls[|old(db.closeCalls)|..] == ids;
      return CreateFailed(failedKey.value);
    }
    assert nodes[..|nodes|] == nodes;
    IdMapKeys(nodes, ids);
    var idOf := IdMap(nodes, ids);
    assert forall n <- nodes :: n.key in idOf;
    var failed := WireAll(db, nodes, idOf);
    r := if failed.Some? then DependencyFailed(ids, failed.value.0, failed.value.1) else Instantiated(ids);
  }

  // ---------- The two formats ----------

  function Provenance(text: string, molecule: string, source: string): string {
    (if text == "" then "" else text + "\n\n") + (("instantiated_from: " + molecule) + "\n" + source)
  }

  function WithTier(text: string, tier: string): string {
    if tier == "" then text else text + "\n" + ("tier: " + tier)
  }

  /** expand is template-variable substitution under the caller's context, the identity without one. */
  function MarkdownNode(mol: Issue, parent: Issue, expand: string -> string, step: Step): Node {
    Node(step.ref, step.needs,
         Child(step.title, "task", parent.priority,
               WithTier(Provenance(expand(step.instructions), mol.id, "step: " + step.ref), step.tier),
               parent.id))
  }

  function TemplateNode(mol: Issue, parent: Issue, expand: string -> string, template: Issue): Node {
    Node(template.id, template.dependsOn,
         Child(template.title, if template.kind == "" then "task" else template.kind, parent.priority,
               Provenance(expand(template.description), mol.id, "template_step: " + template.id), parent.id))
  }

  function MarkdownNodes(mol: Issue, parent: Issue, expand: string -> string): seq<Node> {
    Mapped(ParsedSteps(mol.description), s => MarkdownNode(mol, parent, expand, s))
  }

  function TemplateNodes(mol: Issue, parent: Issue, expand: string -> string, templates: seq<Issue>): seq<Node> {
    Mapped(templates, t => TemplateNode(mol, parent, expand, t))
  }

  /** The lines a created issue ends with: where it comes from. */
  function ProvenanceLines(text: string, molecule: string, source: string): seq<string> {
    (if text == "" then [] else Split(text, '\n') + [""]) + Split("instantiated_from: " + molecule, '\n') + Split(source, '\n')
  }

  lemma LinesApart(above: string, below: string)
    ensures Split(above + "\n" + below, '\n') == Split(above, '\n') + Split(below, '\n')
  {
    SplitAppend(above, below, '\n');
    hide Split;
    assert above + "\n" + below == above + ['\n'] + below;
  }

  lemma ParagraphsApart(above: string, below: string)
    ensures Split(above + "\n\n" + below, '\n') == Split(above, '\n') + [""] + Split(below, '\n')
  {
    LinesApart(above, "");
    LinesApart(above + "\n" + "", below);
    SplitWhole("", '\n');
    hide Split;
    assert above + "\n\n" + below == (above + "\n" + "") + "\n" + below;
  }

  lemma ProvenanceReads(text: string, molecule: string, source: string)
    ensures Split(Provenance(text, molecule, source), '\n') == ProvenanceLines(text, molecule, source)
  {
    var from := "instantiated_from: " + molecule;
    LinesApart(from, source);
    ParagraphsApart(text, from + "\n" + source);
    hide Split;
    assert "" + (from + "\n" + source) == from + "\n" + source;
  }

  /** What becomes of a step: an issue of type task with the step's title and the parent's priority, placed under the
      parent; its text is the expanded instructions, then the molecule, the step and the tier it comes from, a line each;
      and it waits for what the step needs. */
  lemma StepBecomes(mol: Issue, parent: Issue, expand: string -> string, i: nat)
    requires i < |ParsedSteps(mol.description)|
    ensures |MarkdownNodes(mol, parent, expand)| == |ParsedSteps(mol.description)|
    ensures var step, node := ParsedSteps(mol.description)[i], MarkdownNodes(mol, parent, expand)[i];
      && node.key == step.ref && node.needs == step.needs
      && node.child.title == step.title && node.child.kind == "task"
      && node.child.priority == parent.priority && node.child.parent == parent.id
      && Split(node.child.description, '\n') ==
           ProvenanceLines(expand(step.instructions), mol.id, "step: " + step.ref)
           + if step.tier == "" then [] else Split("tier: " + step.tier, '\n')
  {
    var step := ParsedSteps(mol.description)[i];
    var text := Provenance(expand(step.instructions), mol.id, "step: " + step.ref);
    ProvenanceReads(expand(step.instructions), mol.id, "step: " + step.ref);
    LinesApart(text, "tier: " + step.tier);
    hide Split, Provenance, ProvenanceLines, ParsedSteps;
  }

  /** What becomes of a template child: the same with its own type, task if it has none, and it waits for what the
      template depends on. */
  lemma TemplateBecomes(mol: Issue, parent: Issue, expand: string -> string, templates: seq<Issue>, i: nat)
    requires i < |templates|
    ensures |TemplateNodes(mol, parent, expand, templates)| == |templates|
    ensures var template, node := templates[i], TemplateNodes(mol, parent, expand, templates)[i];
      && node.key == template.id && node.needs == template.dependsOn
      && node.child.title == template.title && node.child.kind == (if template.kind == "" then "task" else template.kind)
      && node.child.priority == parent.priority && node.child.parent == parent.id
      && Split(node.child.description, '\n') ==
           ProvenanceLines(expand(template.description), mol.id, "template_step: " + template.id)
  {
    ProvenanceReads(expand(templates[i].description), mol.id, "template_step: " + templates[i].id);
    hide Split, Provenance, ProvenanceLines;
  }

  method InstantiateFromMarkdown(db: Backend, mol: Issue, parent: Issue, expand: string -> string) returns (r: Outcome)
    modifies db
    ensures r == NoStepsDefined <==> ParsedSteps(mol.description) == []
    ensures r.UnknownStep? <==> !KnownNeeds(ParsedSteps(mol.description))
    ensures r.UnknownStep? ==> r.need !in Refs(ParsedSteps(mol.description))
    ensures r.UnknownStep? ==> exists s <- ParsedSteps(mol.description) :: s.ref == r.ref && r.need in s.needs
    ensures r.NoStepsDefined? || r.UnknownStep? ==>
      db.Now() == old(db.Now())
    ensures !(r.NoStepsDefined? || r.UnknownStep?) ==> Copied(old(db.Now()), db.Now(), MarkdownNodes(mol, parent, expand), r)
  {
    var steps := ParseMoleculeSteps(mol.description);
    if |steps| == 0 {
      return NoStepsDefined;
    }
    var unknown := FindUnknownNeed(steps);
    if unknown.Some? {
      return UnknownStep(unknown.value.0, unknown.value.1);
    }
    r := CopyGraph(db, MarkdownNodes(mol, parent, expand));
  }

  /** The first need that names no step. */
  method FindUnknownNeed(steps: seq<Step>) returns (unknown: Option<(string, string)>)
    ensures unknown.None? <==> KnownNeeds(steps)
    ensures unknown.Some? ==> unknown.value.1 !in Refs(steps)
    ensures unknown.Some? ==> exists s <- steps :: s.ref == unknown.value.0 && unknown.value.1 in s.needs
  {
    for i := 0 to |steps|
      invariant forall s <- steps[..i], n <- s.needs :: n in Refs(steps)
    {
      var needs := steps[i].needs;
      for j := 0 to |needs|
        invariant forall n <- needs[..j] :: n in Refs(steps)
      {
        if needs[j] !in Refs(steps) {
          assert steps[i] in steps && needs[j] in steps[i].needs;
          return Some((steps[i].ref, needs[j]));
        }
        assert needs[..j + 1] == needs[..j] + [needs[j]];
      }
      assert needs[..|needs|] == needs;
      assert steps[..i + 1] == steps[..i] + [steps[i]];
    }
    assert steps[..|steps|] == steps;
    unknown := None;
  }

  method InstantiateFromChildren(
    db: Backend, mol: Issue, parent: Issue, templates: seq<Issue>, expand: string -> string) returns (r: Outcome)
    modifies db
    ensures Copied(old(db.Now()), db.Now(), TemplateNodes(mol, parent, expand, templates), r)
  {
    r := CopyGraph(db, TemplateNodes(mol, parent, expand, templates));
  }

  /** The format bridge: child issues if the molecule has any (listing may fail), its text otherwise. */
  method InstantiateMolecule(
    db: Backend, mol: Option<Issue>, parent: Option<Issue>, listed: Option<seq<Issue>>, expand: string -> string)
    returns (r: Outcome)
    modifies db
    ensures r == MissingIssue <==> mol.None? || parent.None?
    ensures r == MissingIssue || r.NoStepsDefined? || r.UnknownStep? ==>
      db.Now() == old(db.Now())
    ensures r != MissingIssue && listed.Some? && listed.value != [] ==>
      Copied(old(db.Now()), db.Now(), TemplateNodes(mol.value, parent.value, expand, listed.value), r)
    ensures r != MissingIssue && (listed.None? || listed.value == []) ==>
      && (r == NoStepsDefined <==> ParsedSteps(mol.value.description) == [])
      && (r.UnknownStep? <==> !KnownNeeds(ParsedSteps(mol.value.description)))
      && (!(r.NoStepsDefined? || r.UnknownStep?) ==>
           Copied(old(db.Now()), db.Now(), MarkdownNodes(mol.value, parent.value, expand), r))
  {
    if mol.None? || parent.None? {
      return MissingIssue;
    }
    if listed.Some? && |listed.value| > 0 {
      r := InstantiateFromChildren(db, mol.value, parent.value, listed.value, expand);
    } else {
      r := InstantiateFromMarkdown(db, mol.value, parent.value, expand);
    }
  }

  // ---------- The copy is a copy ----------

  lemma WiredInside(nodes: seq<Node>, ids: seq<string>, e: (string, string))
    requires |ids| == |nodes| && NoDup(ids)
    requires forall i, j | 0 <= i < j < |nodes| :: nodes[i].key != nodes[j].key
    requires forall n <- nodes :: n.key in IdMap(nodes, ids)
    requires e in WiredEdges(nodes, IdMap(nodes, ids))
    ensures exists i, j :: 0 <= i < |ids| && 0 <= j < |ids| && e == (ids[i], ids[j]) && nodes[j].key in nodes[i].needs
  {
    var idOf := IdMap(nodes, ids);
    IdMapOfDistinct(nodes, ids);
    IdMapKeys(nodes, ids);
    WiredEdgesMembers(nodes, idOf);
    var n, d :| n in nodes && d in n.needs && d in idOf && e == (idOf[n.key], idOf[d]);
    var i :| 0 <= i < |nodes| && nodes[i] == n;
    var j :| 0 <= j < |nodes| && nodes[j].key == d;
    assert e == (ids[i], ids[j]);
  }

  /** With distinct keys, the wired dependencies are exactly the image of the inner needs under key -> id. */
  lemma WiredIsImage(nodes: seq<Node>, ids: seq<string>, e: (string, string))
    requires |ids| == |nodes| && NoDup(ids)
    requires forall i, j | 0 <= i < j < |nodes| :: nodes[i].key != nodes[j].key
    ensures forall n <- nodes :: n.key in IdMap(nodes, ids)
    ensures e in WiredEdges(nodes, IdMap(nodes, ids)) <==>
      exists i, j :: 0 <= i < |ids| && 0 <= j < |ids| && e == (ids[i], ids[j]) && nodes[j].key in nodes[i].needs
  {
    var idOf := IdMap(nodes, ids);
    IdMapOfDistinct(nodes, ids);
    if e in WiredEdges(nodes, idOf) {
      WiredInside(nodes, ids, e);
    }
    if i, j :| 0 <= i < |ids| && 0 <= j < |ids| && e == (ids[i], ids[j]) && nodes[j].key in nodes[i].needs {
      WiredEdgesMembers(nodes, idOf);
      assert nodes[i] in nodes && nodes[j].key in idOf && e == (idOf[nodes[i].key], idOf[nodes[j].key]);
    }
  }

  ghost predicate EdgeCycle(edges: seq<(string, string)>, c: seq<string>) {
    |c| >= 2 && c[0] == c[|c| - 1] && forall i | 0 <= i < |c| - 1 :: (c[i], c[i + 1]) in edges
  }

  /** The dependency between two issues comes from an edge between their keys. */
  ghost predicate Pulls(deps: map<string, seq<string>>, keys: seq<string>, ids: seq<string>, a: string, b: string)
    requires |keys| == |ids|
  {
    a in ids && b in ids && Edge(deps, keys[Position(ids, a)], keys[Position(ids, b)])
  }

  /** A circle of issues whose dependencies all come from edges of a graph comes from a circle of the graph. */
  lemma CyclePullsBack(deps: map<string, seq<string>>, keys: seq<string>, ids: seq<string>, c: seq<string>)
    requires |keys| == |ids| && NoDup(ids) && |c| >= 2 && c[0] == c[|c| - 1]
    requires forall i | 0 <= i < |c| - 1 :: Pulls(deps, keys, ids, c[i], c[i + 1])
    ensures !Acyclic(deps)
  {
    forall i | 0 <= i < |c| ensures c[i] in ids {
      if i < |c| - 1 { assert Pulls(deps, keys, ids, c[i], c[i + 1]); }
      assert Pulls(deps, keys, ids, c[0], c[0 + 1]);
    }
    var back := seq(|c|, i requires 0 <= i < |c| => keys[Position(ids, c[i])]);
    assert Cycle(deps, back);
  }

  /** So the created issues never wait for each other in a circle when the steps did not. */
  lemma CopyStaysAcyclic(deps: map<string, seq<string>>, nodes: seq<Node>, ids: seq<string>, c: seq<string>)
    requires |ids| == |nodes| && NoDup(ids)
    requires forall i, j | 0 <= i < j < |nodes| :: nodes[i].key != nodes[j].key
    requires forall n <- nodes :: n.key in deps && deps[n.key] == n.needs
    requires Acyclic(deps)
    ensures forall n <- nodes :: n.key in IdMap(nodes, ids)
    ensures !EdgeCycle(WiredEdges(nodes, IdMap(nodes, ids)), c)
  {
    IdMapKeys(nodes, ids);
    if EdgeCycle(WiredEdges(nodes, IdMap(nodes, ids)), c) {
      var keys := Mapped(nodes, (n: Node) => n.key);
      assert NoDup(ids) && |c| >= 2 && c[0] == c[|c| - 1];
      forall i | 0 <= i < |c| - 1 ensures Pulls(deps, keys, ids, c[i], c[i + 1]) {
        assert (c[i], c[i + 1]) in WiredEdges(nodes, IdMap(nodes, ids));
        hide EdgeCycle, WiredEdges, IdMap, Acyclic, Pulls;
        WiredPulls(deps, nodes, ids, c[i], c[i + 1]);
      }
      hide EdgeCycle, WiredEdges, IdMap, Acyclic, Pulls;
      CyclePullsBack(deps, keys, ids, c);
    }
  }

  lemma WiredPulls(deps: map<string, seq<string>>, nodes: seq<Node>, ids: seq<string>, from: string, to: string)
    requires |ids| == |nodes| && NoDup(ids)
    requires forall i, j | 0 <= i < j < |nodes| :: nodes[i].key != nodes[j].key
    requires forall n <- nodes :: n.key in deps && deps[n.key] == n.needs
    requires forall n <- nodes :: n.key in IdMap(nodes, ids)
    requires (from, to) in WiredEdges(nodes, IdMap(nodes, ids))
    ensures Pulls(deps, Mapped(nodes, (n: Node) => n.key), ids, from, to)
  {
    WiredInside(nodes, ids, (from, to));
    hide WiredEdges, IdMap;
    var a, b :| 0 <= a < |ids| && 0 <= b < |ids| && (from, to) == (ids[a], ids[b]) && nodes[b].key in nodes[a].needs;
    assert a == Position(ids, from) && b == Position(ids, to) && nodes[a] in nodes;
  }

  ghost function Position(ids: seq<string>, id: string): (k: nat)
    requires id in ids
    ensures k < |ids| && ids[k] == id
  {
    var k :| 0 <= k < |ids| && ids[k] == id;
    k
  }

  /** For a validated molecule: instantiating its text yields an acyclic set of issues. */
  lemma ValidatedCopyIsAcyclic(mol: Issue, parent: Issue, expand: string -> string, ids: seq<string>, c: seq<string>)
    requires WellFormed(ParsedSteps(mol.description))
    requires |ids| == |MarkdownNodes(mol, parent, expand)| && NoDup(ids)
    ensures var nodes := MarkdownNodes(mol, parent, expand);
      (forall n <- nodes :: n.key in IdMap(nodes, ids)) && !EdgeCycle(WiredEdges(nodes, IdMap(nodes, ids)), c)
  {
    var steps := ParsedSteps(mol.description);
    var nodes := MarkdownNodes(mol, parent, expand);
    hide ParsedSteps, EdgeCycle, WiredEdges, IdMap, Acyclic, Provenance;
    DepsAreNeeds(steps);
    forall n | n in nodes ensures n.key in DepsOf(steps) && DepsOf(steps)[n.key] == n.needs {
      var i :| 0 <= i < |nodes| && nodes[i] == n;
      assert steps[i] in steps;
    }
    CopyStaysAcyclic(DepsOf(steps), nodes, ids, c);
  }
}
